/**
 The program's wiring: sources mapped and output universes registered at setup,
 merges sent out, and what comes back from the network.
 */
module Bridge {
  import opened Dmx
  import opened Htp
  import opened Channels
  import ArtNet
  import MG = Merger
  import MR = MergerRuns
  import ND = Node

  /** A merge input of the configuration, source and output universe as given. */
  datatype MergeInput = MergeInput(source: int, output: int)

  /** Go's conversion to uint16. */
  function ToUniverse(n: int): Universe {
    n % 0x10000
  }

  /** Numbers of 16 bits are kept; two numbers meet exactly if they differ by a multiple of 65536. */
  lemma UniversesMeetIff(a: int, b: int)
    ensures 0 <= a <= 0xFFFF ==> ToUniverse(a) == a
    ensures ToUniverse(a) == ToUniverse(b) <==> (a - b) % 65536 == 0
  {
  }

  /** Every universe that a source feeds is registered with the node. */
  ghost predicate Registered(ss: Sources, outputs: set<Universe>) {
    forall id :: id in ss ==> ss[id].outputUni in outputs
  }

  /** The universes that the program sends on. */
  function Outputs(universe: int, inputs: seq<MergeInput>): set<Universe> {
    {ToUniverse(universe)} + set i | i in inputs :: ToUniverse(i.output)
  }

  /** No later input has the same source. */
  ghost predicate Last(inputs: seq<MergeInput>, i: nat) {
    i < |inputs| && forall j :: i < j < |inputs| ==> inputs[j].source != inputs[i].source
  }

  /** The local source feeds the node's universe, each input's source its last output, and nothing else is mapped. */
  ghost predicate Wired(ss: Sources, universe: int, inputs: seq<MergeInput>) {
    && MR.JustMapped(ss)
    && Local in ss && ss[Local].outputUni == ToUniverse(universe)
    && (forall i: nat :: Last(inputs, i) ==>
          && SourceID.ArtNet(inputs[i].source) in ss
          && ss[SourceID.ArtNet(inputs[i].source)].outputUni == ToUniverse(inputs[i].output))
    && (forall id :: id in ss && id != Local ==> exists i: nat :: Last(inputs, i) && id == SourceID.ArtNet(inputs[i].source))
  }

  lemma OnlyLocal(universe: int)
    ensures Wired(Mapped(map[], Local, ToUniverse(universe)), universe, [])
  {
  }

  lemma LastGrows(inputs: seq<MergeInput>, input: MergeInput, i: nat)
    ensures Last(inputs + [input], i) <==> i == |inputs| || (Last(inputs, i) && inputs[i].source != input.source)
  {
    var more := inputs + [input];
    if Last(more, i) && i < |inputs| {
      assert more[|inputs|].source != more[i].source;
      assert forall j :: i < j < |inputs| ==> more[j] == inputs[j];
    }
  }

  lemma WiredGrows(ss: Sources, universe: int, inputs: seq<MergeInput>, input: MergeInput)
    requires Wired(ss, universe, inputs)
    ensures Wired(Mapped(ss, SourceID.ArtNet(input.source), ToUniverse(input.output)), universe, inputs + [input])
  {
    hide ToUniverse, MR.JustMapped;
    MappedIdle(ss, SourceID.ArtNet(input.source), ToUniverse(input.output));
    var more, added := inputs + [input], SourceID.ArtNet(input.source);
    var after := Mapped(ss, added, ToUniverse(input.output));
    forall i: nat
      ensures Last(more, i) <==> i == |inputs| || (Last(inputs, i) && inputs[i].source != input.source)
    {
      LastGrows(inputs, input, i);
    }
    forall id | id in after && id != Local
      ensures exists i: nat :: Last(more, i) && id == SourceID.ArtNet(more[i].source)
    {
      if id == added {
        assert Last(more, |inputs|);
      } else {
        var i: nat :| Last(inputs, i) && id == SourceID.ArtNet(inputs[i].source);
        assert Last(more, i);
      }
    }
  }

  lemma MappedIdle(ss: Sources, id: SourceID, uni: Universe)
    requires MR.JustMapped(ss)
    ensures MR.JustMapped(Mapped(ss, id, uni))
  {
  }

  lemma WiredRegistered(ss: Sources, universe: int, inputs: seq<MergeInput>)
    requires Wired(ss, universe, inputs)
    ensures Registered(ss, Outputs(universe, inputs))
  {
    forall id | id in ss
      ensures ss[id].outputUni in Outputs(universe, inputs)
    {
      if id != Local {
        var i: nat :| Last(inputs, i) && id == SourceID.ArtNet(inputs[i].source);
        assert inputs[i] in inputs;
      }
    }
  }

  /** One configured input: its source is mapped and allowed, its output registered. */
  method AddInput(merger: MG.Merger, node: ND.Node, input: MergeInput)
    requires merger.Valid() && node.Valid()
    modifies merger, node`outputUniverses
    ensures merger.Valid() && node.Valid() && fresh(merger.sources.Values - old(merger.sources.Values))
    ensures merger.Abs() == Mapped(old(merger.Abs()), SourceID.ArtNet(input.source), ToUniverse(input.output))
    ensures node.outputUniverses == old(node.outputUniverses) + {ToUniverse(input.output)}
  {
    hide Mapped;
    merger.AddMapping(SourceID.ArtNet(input.source), ToUniverse(input.output));
    node.AddOutputUniverse(ToUniverse(input.output));
  }

  lemma OneMore(universe: int, inputs: seq<MergeInput>, k: nat)
    requires k < |inputs|
    ensures inputs[..k + 1] == inputs[..k] + [inputs[k]]
    ensures Outputs(universe, inputs[..k + 1]) == Outputs(universe, inputs[..k]) + {ToUniverse(inputs[k].output)}
    ensures Allowed(inputs[..k + 1]) == Allowed(inputs[..k]) + {ToUniverse(inputs[k].source)}
  {
    assert inputs[..k + 1] == inputs[..k] + [inputs[k]];
  }

  /** The universes that received frames are merged from. */
  function Allowed(inputs: seq<MergeInput>): set<Universe> {
    set i | i in inputs :: ToUniverse(i.source)
  }

  method Setup(universe: int, inputs: seq<MergeInput>, timeout: int, localIP: ND.IP)
    returns (merger: MG.Merger, node: ND.Node, allowed: set<Universe>)
    ensures merger.Valid() && node.Valid() && merger.timeout == timeout && node.localIP == localIP
    ensures fresh(merger) && fresh(merger.sources.Values) && fresh(merger.output) && fresh(merger.events)
    ensures fresh(node) && fresh(node.received)
    ensures Wired(merger.Abs(), universe, inputs)
    ensures node.outputUniverses == Outputs(universe, inputs) && allowed == Allowed(inputs)
    ensures Idle(merger, node)
  {
    hide Wired, Outputs, Allowed, ToUniverse, Mapped, Chan.Valid;
    node := new ND.Node(localIP, ToUniverse(universe));
    merger := new MG.Merger(timeout);
    OnlyLocal(universe);
    merger.AddMapping(Local, ToUniverse(universe));
    allowed := {};
    NoInputs(universe);
    for k := 0 to |inputs|
      invariant merger.Valid() && node.Valid() && fresh(merger.sources.Values)
      invariant Wired(merger.Abs(), universe, inputs[..k])
      invariant node.outputUniverses == Outputs(universe, inputs[..k]) && allowed == Allowed(inputs[..k])
      invariant Idle(merger, node)
    {
      OneMore(universe, inputs, k);
      WiredGrows(merger.Abs(), universe, inputs[..k], inputs[k]);
      AddInput(merger, node, inputs[k]);
      allowed := allowed + {ToUniverse(inputs[k].source)};
    }
    assert inputs[..|inputs|] == inputs;
  }

  lemma NoInputs(universe: int)
    ensures Outputs(universe, []) == {ToUniverse(universe)} && Allowed([]) == {}
  {
  }

  /** Nothing was merged, sent or received yet. */
  ghost predicate Idle(merger: MG.Merger, node: ND.Node)
    reads merger, merger.output, merger.events, node, node.received
  {
    && merger.output.offered == [] && merger.output.taken == [] && merger.events.offered == []
    && node.sent == [] && node.received.offered == [] && node.received.taken == []
  }

  // ----- what is sent and what comes back -----

  /** The packets of the merges, numbered in order. */
  function Packets(merges: seq<MG.OutputFrame>): (packets: seq<seq<byte>>)
    ensures |packets| == |merges|
    ensures forall k :: 0 <= k < |merges| ==>
              packets[k] == ArtNet.Packet(merges[k].frame.channels, ND.SequenceOf(k + 1), merges[k].universe, 0)
  {
    seq(|merges|, k requires 0 <= k < |merges| =>
      ArtNet.Packet(merges[k].frame.channels, ND.SequenceOf(k + 1), merges[k].universe, 0))
  }

  /**
   A merge that is sent and comes back from the local address is dropped exactly
   if its 15-bit universe is registered, which it is when the outputs are closed.
   */
  lemma NoFeedback(setup: Sources, outputs: set<Universe>, o: MG.OutputFrame, localIP: ND.IP, sequence: byte)
    requires Registered(setup, outputs) && MR.Destined(setup, o)
    ensures var back := ND.Datagram(ArtNet.Packet(o.frame.channels, sequence, o.universe, 0), localIP);
            && (ND.Accepted(localIP, outputs, back) == [] <==> o.universe % ArtNet.PORT_ADDRESSES in outputs)
            && (Closed(outputs) ==> ND.Accepted(localIP, outputs, back) == [])
  {
    ND.OwnPacketDroppedIff(localIP, outputs, o.frame.channels, sequence, o.universe);
  }

  /** Cutting a universe to 15 bits stays among the universes. */
  ghost predicate Closed(outputs: set<Universe>) {
    forall u :: u in outputs ==> u % ArtNet.PORT_ADDRESSES in outputs
  }

  /** Configurations in the documented range are closed. */
  lemma FifteenBitIsClosed(universe: int, inputs: seq<MergeInput>)
    requires 0 <= universe < ArtNet.PORT_ADDRESSES
    requires forall i :: i in inputs ==> 0 <= i.output < ArtNet.PORT_ADDRESSES
    ensures Closed(Outputs(universe, inputs))
  {
    assert forall u :: u in Outputs(universe, inputs) ==> u < ArtNet.PORT_ADDRESSES;
  }

  // ----- the running program -----

  /** What the goroutines do, one step at a time. */
  datatype Event =
    | LocalFrame(frame: Frame, now: int) // the receiver's frame goes to the merger
    | Tick(now: int) // the merger's expiry ticker
    | Forward(now: int) // the next frame received from the network goes to the merger, if it is allowed
    | Send // the next merge is received from the merger and sent
    | Returned(k: nat) // the k-th packet sent comes back from the local address
    | Arrives(d: ND.Datagram) // any other datagram

  /** The calls on the merger that an event may make. */
  ghost predicate Makes(e: Event, calls: seq<MR.Call>) {
    match e
    case LocalFrame(frame, now) => calls == [MR.UpdateCall(Local, frame, now)]
    case Tick(now) => calls == [MR.TickCall(now)]
    case Forward(now) => calls == [] || exists u, frame :: calls == [MR.UpdateCall(SourceID.ArtNet(u), frame, now)]
    case _ => calls == []
  }

  /** The datagrams that an event brings to the node. */
  function Brings(e: Event, sent: seq<seq<byte>>, localIP: ND.IP): seq<ND.Datagram> {
    match e
    case Returned(k) => if k < |sent| then [ND.Datagram(sent[k], localIP)] else []
    case Arrives(d) => [d]
    case _ => []
  }

  /** The datagrams that are not the program's own. */
  function Foreign(events: seq<Event>): seq<ND.Datagram> {
    if events == [] then []
    else Foreign(events[..|events| - 1]) + Brings(events[|events| - 1], [], [])
  }

  datatype Input = Input(universe: int, frame: Frame)

  /** The network frames among the calls on the merger. */
  function Fed(calls: seq<MR.Call>): seq<Input> {
    if calls == [] then []
    else
      Fed(calls[..|calls| - 1])
      + (match calls[|calls| - 1] case UpdateCall(ArtNet(u), frame, _) => [Input(u, frame)] case _ => [])
  }

  /** The received frames on allowed universes. */
  function Passed(allowed: set<Universe>, received: seq<ND.ReceivedFrame>): seq<Input> {
    if received == [] then []
    else
      var last := received[|received| - 1];
      Passed(allowed, received[..|received| - 1])
      + (if last.universe in allowed then [Input(last.universe, last.frame)] else [])
  }

  lemma FedSnoc(calls: seq<MR.Call>, call: MR.Call)
    ensures Fed(calls + [call])
         == Fed(calls) + (match call case UpdateCall(ArtNet(u), frame, _) => [Input(u, frame)] case _ => [])
  {
    assert (calls + [call])[..|calls|] == calls;
  }

  /** A packet from elsewhere on an allowed universe is, once received and forwarded, its frame fed to the merger. */
  lemma ForeignIsFed(localIP: ND.IP, outputs: set<Universe>, allowed: set<Universe>, source: ND.IP,
                     channels: ChannelData, sequence: byte, u: Universe)
    requires source != localIP || u % ArtNet.PORT_ADDRESSES !in outputs
    ensures var received := ND.Accepted(localIP, outputs, ND.Datagram(ArtNet.Packet(channels, sequence, u, 0), source));
            Passed(allowed, received) ==
              if u % ArtNet.PORT_ADDRESSES in allowed then [Input(u % ArtNet.PORT_ADDRESSES, MakeFrame(channels))] else []
  {
    hide ND.Accepted, ArtNet.Packet;
    ND.PacketReceived(localIP, outputs, channels, sequence, u, source);
    var received := [ND.ReceivedFrame(MakeFrame(channels), u % ArtNet.PORT_ADDRESSES, source)];
    assert received[..0] == [];
    assert Passed(allowed, []) == [];
  }

  /** What is fed of a selection of received frames is a selection of what would be fed of all. */
  lemma {:induction false} PassedSubseq(allowed: set<Universe>, a: seq<ND.ReceivedFrame>, b: seq<ND.ReceivedFrame>)
    requires Subseq(a, b)
    ensures Subseq(Passed(allowed, a), Passed(allowed, b))
    decreases |b|
  {
    if a != [] {
      var b0, last := b[..|b| - 1], b[|b| - 1];
      var tail := if last.universe in allowed then [Input(last.universe, last.frame)] else [];
      assert Passed(allowed, b) == Passed(allowed, b0) + tail;
      if Subseq(a, b0) {
        PassedSubseq(allowed, a, b0);
        SubseqMore(Passed(allowed, a), Passed(allowed, b0), tail);
      } else {
        PassedSubseq(allowed, a[..|a| - 1], b0);
        SubseqMore(Passed(allowed, a[..|a| - 1]), Passed(allowed, b0), tail);
        assert Passed(allowed, a) == Passed(allowed, a[..|a| - 1]) + tail;
      }
    }
  }

  lemma SubseqMore<T>(a: seq<T>, b: seq<T>, more: seq<T>)
    requires Subseq(a, b) && |more| <= 1
    ensures Subseq(a, b + more) && Subseq(a + more, b + more)
  {
    if more == [] {
      assert a + more == a && b + more == b;
    } else {
      SubseqSnoc(a, b, more[0]);
      assert more == [more[0]];
    }
  }

  lemma {:induction false} SubseqPrefix<T>(a: seq<T>, n: nat, b: seq<T>)
    requires n <= |a| && Subseq(a, b)
    ensures Subseq(a[..n], b)
    decreases |a|
  {
    if n < |a| {
      SubseqRemove(a, |a| - 1, b);
      assert a[..|a| - 1] + a[|a|..] == a[..|a| - 1];
      SubseqPrefix(a[..|a| - 1], n, b);
      assert a[..|a| - 1][..n] == a[..n];
    } else {
      assert a[..n] == a;
    }
  }

  lemma PassedNext(allowed: set<Universe>, received: seq<ND.ReceivedFrame>, k: nat)
    requires k < |received|
    ensures Passed(allowed, received[..k + 1])
         == Passed(allowed, received[..k])
            + (if received[k].universe in allowed then [Input(received[k].universe, received[k].frame)] else [])
  {
    assert received[..k + 1][..k] == received[..k];
  }

  class Program {
    const merger: MG.Merger
    const node: ND.Node
    const allowed: set<Universe>
    var forwarded: nat // of the frames received from the network, how many were looked at

    ghost const setup: Sources
    ghost var calls: seq<MR.Call>
    ghost var steps: seq<MR.Step>
    ghost var merges: seq<seq<MG.OutputFrame>>
    ghost var arrivals: seq<ND.Datagram>

    /** The merger made a run of the calls. */
    ghost predicate Merging()
      reads this, merger, merger.sources.Values, merger.output, merger.events
    {
      && merger.Valid()
      && MR.Played(setup, merger.timeout, calls, steps, merges)
      && merger.Abs() == MR.Reached(setup, merger.timeout, steps)
      && merger.output.offered == Concat(merges)
      && merger.events.offered == MR.AllAttempts(setup, merger.timeout, steps)
    }

    /** What was sent are the packets of the merges received, in order, but for those still in hand. */
    ghost predicate Sending()
      reads merger.output, node, node.received
    {
      && node.Valid() && |node.sent| <= |merger.output.taken|
      && node.sent == Packets(merger.output.taken[..|node.sent|])
    }

    /** The merger was fed the frames received on allowed universes, in order, but for those still in hand. */
    ghost predicate Forwarding()
      reads this, node.received
    {
      && forwarded <= |node.received.taken|
      && Fed(calls) == Passed(allowed, node.received.taken[..forwarded])
    }

    ghost predicate Valid()
      reads this, merger, merger.sources.Values, merger.output, merger.events, node, node.received
    {
      && Merging() && Sending() && Forwarding()
      && node.received.offered == ND.AllAccepted(node.localIP, node.outputUniverses, arrivals)
    }

    constructor (merger: MG.Merger, node: ND.Node, allowed: set<Universe>)
      requires merger.Valid() && node.Valid() && Idle(merger, node)
      ensures Valid() && this.merger == merger && this.node == node && this.allowed == allowed
      ensures setup == merger.Abs() && calls == [] && arrivals == []
    {
      this.merger, this.node, this.allowed, forwarded := merger, node, allowed, 0;
      setup := merger.Abs();
      calls, steps, merges, arrivals := [], [], [], [];
      MR.NothingPlayed(merger.Abs(), merger.timeout);
    }

    method Call(call: MR.Call)
      requires Merging() && Sending()
      modifies this`calls, this`steps, this`merges, merger.sources.Values, merger.output, merger.events
      ensures Merging() && Sending() && calls == old(calls) + [call]
    {
      hide MR.Played, MR.Reached, MR.AllAttempts, MR.After, MR.Attempts, MR.Possible, MR.Performs, MR.Yields, Concat, Packets;
      ghost var st, more;
      st, more := MR.PlayOne(merger, call);
      MR.PlayedStep(setup, merger.timeout, calls, steps, merges, call, st, more);
      calls, steps, merges := calls + [call], steps + [st], merges + [more];
    }

    /** The output loop: the next merge is received and sent on its universe. */
    method SendNext()
      requires Valid()
      modifies merger.output, node
      ensures Valid() && node.outputUniverses == old(node.outputUniverses) && old(node.sent) <= node.sent
      ensures merger.output.taken + merger.output.queue == old(merger.output.taken + merger.output.queue)
      ensures var all, n := old(merger.output.taken + merger.output.queue), old(|node.sent|);
              |node.sent| == if n < |all| then n + 1 else n
      ensures old(|node.sent| < |merger.output.taken|) ==> merger.output.taken == old(merger.output.taken)
    {
      hide MR.Played, MR.Reached, MR.AllAttempts, Concat, Subseq, ND.AllAccepted, Passed, Fed, ArtNet.Packet, ND.SequenceOf;
      var n := |node.sent|;
      if n == |merger.output.taken| {
        if merger.output.queue == [] {
          return;
        }
        var _ := merger.output.Receive();
      }
      var next := merger.output.taken[n];
      node.SendDmxUniverse(next.frame, next.universe);
      assert node.sent == Packets(merger.output.taken[..n + 1]);
    }

    /** The output loop finishes what it has in hand. */
    method SendRest()
      requires Valid()
      modifies merger.output, node
      ensures Valid() && node.outputUniverses == old(node.outputUniverses) && old(node.sent) <= node.sent
      ensures merger.output.taken == old(merger.output.taken) && node.sent == Packets(merger.output.taken)
    {
      hide Merging, Forwarding, ND.AllAccepted, Packets, Subseq;
      while |node.sent| < |merger.output.taken|
        invariant Valid() && node.outputUniverses == old(node.outputUniverses) && old(node.sent) <= node.sent
        invariant merger.output.taken == old(merger.output.taken)
        decreases |merger.output.taken| - |node.sent|
      {
        SendNext();
      }
      assert merger.output.taken[..|node.sent|] == merger.output.taken;
    }

    /** Receive a frame from the node, if none is in hand. */
    method TakeReceived() returns (ok: bool)
      requires Valid()
      modifies node.received
      ensures Valid() && node.received.taken + node.received.queue == old(node.received.taken + node.received.queue)
      ensures ok <==> forwarded < |node.received.taken|
      ensures !ok ==> node.received.queue == []
    {
      hide MR.Played, MR.Reached, MR.AllAttempts, Concat, Subseq, ND.AllAccepted, Passed, Fed, Packets, ND.SequenceOf;
      if forwarded == |node.received.taken| && node.received.queue != [] {
        var _ := node.received.Receive();
        assert node.received.taken[..forwarded] == old(node.received.taken[..forwarded]);
      }
      ok := forwarded < |node.received.taken|;
    }

    /** The forwarding loop: the next received frame is merged if its universe is allowed. */
    method ForwardNext(now: int) returns (ghost made: seq<MR.Call>)
      requires Valid()
      modifies this`calls, this`steps, this`merges, this`forwarded
      modifies merger.sources.Values, merger.output, merger.events, node.received
      ensures Valid() && calls == old(calls) + made && Makes(Forward(now), made)
      ensures var all, n := old(node.received.taken + node.received.queue), old(forwarded);
              made == if n < |all| && all[n].universe in allowed
                      then [MR.UpdateCall(SourceID.ArtNet(all[n].universe), all[n].frame, now)] else []
      ensures var all, n := old(node.received.taken + node.received.queue), old(forwarded);
              && node.received.taken + node.received.queue == all
              && forwarded == if n < |all| then n + 1 else n
    {
      hide MR.Played, MR.Reached, MR.AllAttempts, Concat, Subseq, ND.AllAccepted, Passed, Fed, Packets, ND.SequenceOf;
      made := [];
      assert calls == calls + made;
      var ok := TakeReceived();
      if !ok {
        return;
      }
      var next := node.received.taken[forwarded];
      PassedNext(allowed, node.received.taken, forwarded);
      forwarded := forwarded + 1;
      if next.universe in allowed {
        var call := MR.UpdateCall(SourceID.ArtNet(next.universe), next.frame, now);
        FedSnoc(calls, call);
        Call(call);
        made := [call];
      }
    }

    method ReceiveDatagram(d: ND.Datagram)
      requires Valid()
      modifies this`arrivals, node.received
      ensures Valid() && arrivals == old(arrivals) + [d]
      ensures var kept := old(node.received.taken + node.received.queue);
              |old(node.received.queue)| < node.received.capacity ==>
                node.received.taken + node.received.queue
                == kept + ND.Accepted(node.localIP, node.outputUniverses, d)
    {
      hide MR.Played, MR.Reached, MR.AllAttempts, Concat, Subseq, ND.Accepted, Passed, Fed, Packets, ND.SequenceOf;
      node.HandleDatagram(d);
      assert (arrivals + [d])[..|arrivals|] == arrivals;
      assert node.received.taken[..forwarded] == old(node.received.taken[..forwarded]);
      arrivals := arrivals + [d];
    }

    /** A call that feeds nothing from the network. */
    method CallOnly(call: MR.Call)
      requires Valid() && (call.TickCall? || call.id == Local)
      modifies this`calls, this`steps, this`merges, merger.sources.Values, merger.output, merger.events
      ensures Valid() && calls == old(calls) + [call]
    {
      hide MR.Played, MR.Reached, MR.AllAttempts, Concat, Subseq, ND.AllAccepted, Passed, Fed, Packets, ND.SequenceOf;
      FedSnoc(calls, call);
      Call(call);
    }

    method Step(e: Event) returns (ghost made: seq<MR.Call>)
      requires Valid()
      modifies this`calls, this`steps, this`merges, this`forwarded, this`arrivals
      modifies merger.sources.Values, merger.output, merger.events, node, node.received
      ensures Valid() && node.outputUniverses == old(node.outputUniverses)
      ensures old(node.sent) <= node.sent
      ensures calls == old(calls) + made && Makes(e, made)
      ensures arrivals == old(arrivals) + Brings(e, old(node.sent), node.localIP)
      ensures var all, n := old(merger.output.taken + merger.output.queue), old(|node.sent|);
              |node.sent| == if e == Send && n < |all| then n + 1 else n
      ensures var all, n := old(node.received.taken + node.received.queue), old(forwarded);
              && forwarded == (if e.Forward? && n < |all| then n + 1 else n)
              && (e.Forward? ==>
                    made == if n < |all| && all[n].universe in allowed
                            then [MR.UpdateCall(SourceID.ArtNet(all[n].universe), all[n].frame, e.now)] else [])
      ensures |old(node.received.queue)| < node.received.capacity ==>
                node.received.taken + node.received.queue ==
                  old(node.received.taken + node.received.queue)
                  + ND.AllAccepted(node.localIP, node.outputUniverses, Brings(e, old(node.sent), node.localIP))
    {
      hide Valid, ND.Accepted;
      NoneAccepted(node.localIP, node.outputUniverses);
      assert node.received.taken + node.received.queue + [] == node.received.taken + node.received.queue;
      made := [];
      assert calls == calls + [] && arrivals == arrivals + [];
      match e
      case LocalFrame(frame, now) =>
        made := [MR.UpdateCall(Local, frame, now)];
        CallOnly(MR.UpdateCall(Local, frame, now));
      case Tick(now) =>
        made := [MR.TickCall(now)];
        CallOnly(MR.TickCall(now));
      case Forward(now) =>
        made := ForwardNext(now);
      case Send =>
        SendNext();
      case Returned(k) =>
        if k < |node.sent| {
          OneAccepted(node.localIP, node.outputUniverses, ND.Datagram(node.sent[k], node.localIP));
          ReceiveDatagram(ND.Datagram(node.sent[k], node.localIP));
        }
      case Arrives(d) =>
        OneAccepted(node.localIP, node.outputUniverses, d);
        ReceiveDatagram(d);
    }
  }

  // ----- sessions -----

  /** How many packets had been sent before each event and at the end: each Send sends at most one. */
  ghost predicate Counts(events: seq<Event>, counts: seq<nat>) {
    && |counts| == |events| + 1 && counts[0] == 0
    && forall i :: 0 <= i < |events| ==> counts[i] <= counts[i + 1] <= counts[i] + (if events[i] == Send then 1 else 0)
  }

  /** What reached the node: foreign datagrams, and own packets that had been sent by then. */
  function Brought(events: seq<Event>, counts: seq<nat>, sent: seq<seq<byte>>, localIP: ND.IP): seq<ND.Datagram>
    requires |events| < |counts|
  {
    if events == [] then []
    else
      var k := |events| - 1;
      Brought(events[..k], counts, sent, localIP)
      + Brings(events[k], if counts[k] <= |sent| then sent[..counts[k]] else sent, localIP)
  }

  lemma {:induction false} BroughtPrefix(events: seq<Event>, counts: seq<nat>, more: seq<nat>,
                                         sent: seq<seq<byte>>, sent': seq<seq<byte>>, localIP: ND.IP)
    requires |events| < |counts| && counts <= more && sent <= sent'
    requires forall i :: 0 <= i < |counts| ==> counts[i] <= |sent|
    ensures Brought(events, counts, sent, localIP) == Brought(events, more, sent', localIP)
  {
    if events != [] {
      var k := |events| - 1;
      BroughtPrefix(events[..k], counts, more, sent, sent', localIP);
      assert sent[..counts[k]] == sent'[..counts[k]];
    }
  }

  lemma BroughtSnoc(events: seq<Event>, e: Event, counts: seq<nat>, sent: seq<seq<byte>>, sent': seq<seq<byte>>, localIP: ND.IP)
    requires |counts| == |events| + 1 && counts[|events|] == |sent| && sent <= sent'
    requires forall i :: 0 <= i < |counts| ==> counts[i] <= |sent|
    ensures Brought(events + [e], counts + [|sent'|], sent', localIP)
         == Brought(events, counts, sent, localIP) + Brings(e, sent, localIP)
  {
    assert (events + [e])[..|events|] == events;
    assert sent'[..|sent|] == sent;
    BroughtPrefix(events, counts, counts + [|sent'|], sent, sent', localIP);
  }

  lemma {:induction false} AcceptedAppend(localIP: ND.IP, outputs: set<Universe>, a: seq<ND.Datagram>, b: seq<ND.Datagram>)
    ensures ND.AllAccepted(localIP, outputs, a + b)
         == ND.AllAccepted(localIP, outputs, a) + ND.AllAccepted(localIP, outputs, b)
  {
    hide ND.Accepted;
    if b == [] {
      assert a + b == a;
    } else {
      assert (a + b)[..|a + b| - 1] == a + b[..|b| - 1];
      AcceptedAppend(localIP, outputs, a, b[..|b| - 1]);
    }
  }

  lemma OneAccepted(localIP: ND.IP, outputs: set<Universe>, d: ND.Datagram)
    ensures ND.AllAccepted(localIP, outputs, [d]) == ND.Accepted(localIP, outputs, d)
  {
    hide ND.Accepted;
    assert [d][..0] == [];
  }

  lemma NoneAccepted(localIP: ND.IP, outputs: set<Universe>)
    ensures ND.AllAccepted(localIP, outputs, []) == []
  {
  }

  /** With closed outputs an own packet is dropped, so every event brings what it brings from outside. */
  lemma OwnPacketVanishes(setup: Sources, outputs: set<Universe>, sent: seq<MG.OutputFrame>, localIP: ND.IP, e: Event, m: nat)
    requires Registered(setup, outputs) && Closed(outputs) && forall o :: o in sent ==> MR.Destined(setup, o)
    requires m <= |sent|
    ensures ND.AllAccepted(localIP, outputs, Brings(e, Packets(sent)[..m], localIP))
         == ND.AllAccepted(localIP, outputs, Brings(e, [], []))
  {
    hide ND.Accepted, Registered, Closed, MR.Destined, ArtNet.Packet, ND.SequenceOf;
    if e.Returned? && e.k < m {
      var o := sent[e.k];
      NoFeedback(setup, outputs, o, localIP, ND.SequenceOf(e.k + 1));
      OneAccepted(localIP, outputs, ND.Datagram(Packets(sent)[e.k], localIP));
    }
  }

  /** Whatever comes back and whenever, closed outputs leave nothing but what is foreign. */
  lemma {:induction false} OwnPacketsVanish(setup: Sources, outputs: set<Universe>, sent: seq<MG.OutputFrame>,
                                            localIP: ND.IP, events: seq<Event>, counts: seq<nat>)
    requires Registered(setup, outputs) && Closed(outputs) && forall o :: o in sent ==> MR.Destined(setup, o)
    requires |events| < |counts|
    ensures ND.AllAccepted(localIP, outputs, Brought(events, counts, Packets(sent), localIP))
         == ND.AllAccepted(localIP, outputs, Foreign(events))
  {
    hide ND.AllAccepted, Registered, Closed, MR.Destined, Packets, Brings;
    if events != [] {
      var k := |events| - 1;
      var m := if counts[k] <= |sent| then counts[k] else |sent|;
      assert Packets(sent)[..|sent|] == Packets(sent);
      OwnPacketsVanish(setup, outputs, sent, localIP, events[..k], counts);
      OwnPacketVanishes(setup, outputs, sent, localIP, events[k], m);
      AcceptedAppend(localIP, outputs, Brought(events[..k], counts, Packets(sent), localIP),
                     Brings(events[k], Packets(sent)[..m], localIP));
      AcceptedAppend(localIP, outputs, Foreign(events[..k]), Brings(events[k], [], []));
    }
  }

  /** What the consumer received of the merges was offered by the run, so it is for a mapped universe. */
  lemma TakenDestined(taken: seq<MG.OutputFrame>, queue: seq<MG.OutputFrame>, setup: Sources, timeout: int,
                      calls: seq<MR.Call>, steps: seq<MR.Step>, merges: seq<seq<MG.OutputFrame>>)
    requires MR.JustMapped(setup) && MR.Played(setup, timeout, calls, steps, merges)
    requires Subseq(taken + queue, Concat(merges))
    ensures forall o :: o in taken ==> MR.Destined(setup, o)
  {
    hide MR.Played, MR.Destined, MR.JustMapped, Subseq, Concat;
    MR.PlayedDestined(setup, timeout, calls, steps, merges);
    SubseqMembers(taken + queue, Concat(merges));
    forall o | o in taken
      ensures MR.Destined(setup, o)
    {
      assert o in taken + queue;
    }
  }

  /** The events, one after the other. */
  method RunEvents(p: Program, events: seq<Event>) returns (ghost made: seq<seq<MR.Call>>, ghost counts: seq<nat>)
    requires p.Valid() && p.calls == [] && p.arrivals == [] && p.node.sent == []
    modifies p`calls, p`steps, p`merges, p`forwarded, p`arrivals
    modifies p.merger.sources.Values, p.merger.output, p.merger.events, p.node, p.node.received
    ensures p.Valid() && p.node.outputUniverses == old(p.node.outputUniverses)
    ensures |made| == |events| && p.calls == Concat(made) && forall i :: 0 <= i < |events| ==> Makes(events[i], made[i])
    ensures Counts(events, counts) && counts[|events|] == |p.node.sent|
    ensures forall i :: 0 <= i < |counts| ==> counts[i] <= |p.node.sent|
    ensures p.arrivals == Brought(events, counts, p.node.sent, p.node.localIP)
  {
    hide Program.Valid, Makes, Brings, Brought, Concat, Packets, ND.AllAccepted, Subseq;
    made, counts := [], [0];
    NothingBrought(counts, p.node.localIP);
    for i := 0 to |events|
      invariant p.Valid() && p.node.outputUniverses == old(p.node.outputUniverses)
      invariant Counts(events[..i], counts) && counts[i] == |p.node.sent|
      invariant forall k :: 0 <= k <= i ==> counts[k] <= |p.node.sent|
      invariant |made| == i && p.calls == Concat(made) && forall k :: 0 <= k < i ==> Makes(events[k], made[k])
      invariant p.arrivals == Brought(events[..i], counts, p.node.sent, p.node.localIP)
    {
      ghost var before := p.node.sent;
      ghost var calls := p.Step(events[i]);
      BroughtSnoc(events[..i], events[i], counts, before, p.node.sent, p.node.localIP);
      MR.ConcatSnoc(made, calls);
      assert events[..i] + [events[i]] == events[..i + 1];
      made, counts := made + [calls], counts + [|p.node.sent|];
    }
    assert events[..|events|] == events;
  }

  /**
   The program from setup on, under any interleaving of merger calls, merges
   received and sent, own packets coming back and foreign datagrams arriving. The
   packets sent are exactly those of the merges received, in order; the node
   accepted exactly what its filter lets through of what reached it, and the merger
   was fed frames of those on allowed universes, in order; and if the outputs are
   closed, that is what the node accepts of the foreign datagrams alone.
   */
  method Session(universe: int, inputs: seq<MergeInput>, timeout: int, localIP: ND.IP, events: seq<Event>)
    returns (p: Program, ghost made: seq<seq<MR.Call>>, ghost counts: seq<nat>)
    ensures p.Valid() && Wired(p.setup, universe, inputs) && p.merger.timeout == timeout
    ensures p.allowed == Allowed(inputs)
    ensures p.node.localIP == localIP && p.node.outputUniverses == Outputs(universe, inputs)
    ensures |made| == |events| && p.calls == Concat(made) && forall i :: 0 <= i < |events| ==> Makes(events[i], made[i])
    ensures p.node.sent == Packets(p.merger.output.taken)
    ensures Counts(events, counts) && counts[|events|] <= |p.node.sent|
    ensures p.arrivals == Brought(events, counts, p.node.sent, localIP)
    ensures p.node.received.offered == ND.AllAccepted(localIP, p.node.outputUniverses, p.arrivals)
    ensures Subseq(Fed(p.calls), Passed(p.allowed, ND.AllAccepted(localIP, p.node.outputUniverses, p.arrivals)))
    ensures Closed(p.node.outputUniverses) ==>
              p.node.received.offered == ND.AllAccepted(localIP, p.node.outputUniverses, Foreign(events))
  {
    hide Program.Merging, Program.Forwarding, Packets, Subseq, Chan.Valid, Wired, Outputs, Allowed, Closed;
    hide Makes, Brings, Brought, Concat, ND.AllAccepted, Foreign, ArtNet.Packet, ND.SequenceOf;
    var merger, node, allowed := Setup(universe, inputs, timeout, localIP);
    p := new Program(merger, node, allowed);
    made, counts := RunEvents(p, events);
    ghost var during := p.node.sent;
    p.SendRest();
    BroughtPrefix(events, counts, counts, during, p.node.sent, localIP);
    FedIsReceived(p);
    SessionClosed(p, universe, inputs, events, counts);
  }

  /** Whatever the merger was fed from the network was received, in order, on allowed universes. */
  lemma FedIsReceived(p: Program)
    requires p.Valid()
    ensures Subseq(Fed(p.calls), Passed(p.allowed, p.node.received.offered))
  {
    hide Program.Merging, Fed, Passed, Subseq;
    var received := p.node.received;
    SubseqPrefix(received.taken + received.queue, p.forwarded, received.offered);
    assert (received.taken + received.queue)[..p.forwarded] == received.taken[..p.forwarded];
    PassedSubseq(p.allowed, received.taken[..p.forwarded], received.offered);
  }

  lemma SessionClosed(p: Program, universe: int, inputs: seq<MergeInput>, events: seq<Event>, counts: seq<nat>)
    requires p.Valid() && Wired(p.setup, universe, inputs) && p.node.outputUniverses == Outputs(universe, inputs)
    requires |events| < |counts| && p.arrivals == Brought(events, counts, p.node.sent, p.node.localIP)
    ensures Closed(p.node.outputUniverses) ==>
              p.node.received.offered == ND.AllAccepted(p.node.localIP, p.node.outputUniverses, Foreign(events))
  {
    hide Outputs, Closed, Brought, Concat, ND.AllAccepted, Foreign;
    hide Packets, MR.Played, MR.Destined, MR.JustMapped, Registered, Subseq;
    if Closed(p.node.outputUniverses) {
      var sent := p.merger.output.taken[..|p.node.sent|];
      WiredRegistered(p.setup, universe, inputs);
      TakenDestined(p.merger.output.taken, p.merger.output.queue, p.setup, p.merger.timeout, p.calls, p.steps, p.merges);
      assert forall o :: o in sent ==> o in p.merger.output.taken;
      OwnPacketsVanish(p.setup, p.node.outputUniverses, sent, p.node.localIP, events, counts);
    }
  }

  lemma NothingBrought(counts: seq<nat>, localIP: ND.IP)
    requires counts != []
    ensures Brought([], counts, [], localIP) == [] && Concat<MR.Call>([]) == []
  {
  }
}
