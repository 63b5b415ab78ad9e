/**
 Inferred breaks: what every run keeps, that the learned length alone frames a
 stream of full packets, and for which packet sizes that framing is right.
 */
module InferredFraming {
  import opened Dmx
  import opened BreakVote
  import opened BreakFraming

  // ----- what every run keeps -----

  ghost predicate Kept(rx: Rx) {
    && rx.vote.infer
    && rx.vote.locked <= MAX_CHANNELS
    && (rx.state == ReadData ==> rx.frame.startCode == START_CODE_DMX)
    && (rx.state != ReadData ==> rx.frame == EMPTY_FRAME.(startCode := rx.frame.startCode))
    && (rx.state == SkipTrailer ==> rx.vote.locked > 0)
    && (rx.vote.locked > 0 ==> rx.frame.length < rx.vote.locked)
    && (rx.vote.locked == 0 ==> rx.vote.seen == |rx.vote.votes| < BREAK_VOTE_WINDOW)
    && (rx.vote.locked == 0 ==> forall l :: l in rx.vote.votes ==> l <= MAX_CHANNELS)
  }

  /** One item: a lock never changes, and a frame is emitted only at the locked length. */
  lemma KeptStep(rx: Rx, item: Item)
    requires Kept(rx)
    ensures var s := OnItem(rx, item);
            && Kept(s.rx)
            && (rx.vote.locked > 0 ==> s.rx.vote == rx.vote)
            && (rx.vote.locked == 0 ==> s.frames == [])
            && |s.frames| <= 1
            && forall f :: f in s.frames ==> f.length == rx.vote.locked && f.startCode == START_CODE_DMX
  {
    if item == Break && rx.vote.locked == 0 && rx.frame.length > 0 {
      var votes := rx.vote.votes + multiset{rx.frame.length as int};
      assert |votes| == |rx.vote.votes| + 1;
      if rx.vote.seen + 1 >= BREAK_VOTE_WINDOW {
        assert Winner(votes) in votes;
      }
    }
  }

  /**
   Over a whole run: no frame before the lock, every frame of exactly the locked
   length, an open frame strictly shorter.
   */
  lemma {:induction false} RunInvariant(items: seq<Item>)
    ensures var r := Frames(Start(true), items);
            && Kept(r.rx)
            && (r.rx.vote.locked == 0 ==> r.frames == [])
            && forall f :: f in r.frames ==> f.length == r.rx.vote.locked && f.startCode == START_CODE_DMX
  {
    if items != [] {
      var init, last := items[..|items| - 1], items[|items| - 1];
      RunInvariant(init);
      KeptStep(Frames(Start(true), init).rx, last);
    }
  }

  /** The lock is permanent: no run changes a length once learned. */
  lemma {:induction false} LockPermanent(items: seq<Item>, more: seq<Item>)
    requires Frames(Start(true), items).rx.vote.locked > 0
    ensures Frames(Start(true), items + more).rx.vote == Frames(Start(true), items).rx.vote
  {
    if more == [] {
      assert items + more == items;
    } else {
      var init, last := more[..|more| - 1], more[|more| - 1];
      LockPermanent(items, init);
      assert items + more == (items + init) + [last];
      FramesSnoc(Start(true), items + init, last);
      RunInvariant(items + init);
      KeptStep(Frames(Start(true), items + init).rx, last);
    }
  }

  // ----- framing by the locked length -----

  /** A packet as the adapter delivers it: start code, channels, the break's stray byte. */
  datatype Packet = Packet(channels: seq<byte>, stray: byte)

  function Wire(p: Packet): seq<byte> {
    [START_CODE_DMX] + p.channels + [p.stray]
  }

  ghost predicate Sized(ps: seq<Packet>, n: nat) {
    forall i :: 0 <= i < |ps| ==> |ps[i].channels| == n
  }

  function WireAll(ps: seq<Packet>): seq<byte> {
    if ps == [] then [] else WireAll(ps[..|ps| - 1]) + Wire(ps[|ps| - 1])
  }

  function MadeFrom(ps: seq<Packet>): seq<Frame>
    requires forall i :: 0 <= i < |ps| ==> |ps[i].channels| <= MAX_CHANNELS
  {
    if ps == [] then [] else MadeFrom(ps[..|ps| - 1]) + [MakeFrame(ps[|ps| - 1].channels)]
  }

  /** At a packet boundary with the length locked at n. */
  ghost predicate AtBoundary(rx: Rx, n: nat) {
    rx.state == WaitStartCode && rx.frame == EMPTY_FRAME.(startCode := rx.frame.startCode)
    && rx.vote.infer && rx.vote.locked == n && 1 <= n <= MAX_CHANNELS
  }

  /** The state k bytes into a packet. */
  function Within(rx: Rx, p: Packet, k: nat): Framed
    requires k <= |p.channels| + 2 && |p.channels| <= MAX_CHANNELS
  {
    if k == 0 then Framed(rx, [])
    else if k <= |p.channels| then Framed(Rx(ReadData, MakeFrame(p.channels[..k - 1]), rx.vote), [])
    else if k == |p.channels| + 1 then Framed(Rx(SkipTrailer, EMPTY_FRAME, rx.vote), [MakeFrame(p.channels)])
    else Framed(Rx(WaitStartCode, EMPTY_FRAME, rx.vote), [MakeFrame(p.channels)])
  }

  lemma WithinStep(rx: Rx, p: Packet, k: nat)
    requires AtBoundary(rx, |p.channels|) && k < |p.channels| + 2
    ensures OnByte(Within(rx, p, k).rx, Wire(p)[k])
         == Framed(Within(rx, p, k + 1).rx, if k == |p.channels| then [MakeFrame(p.channels)] else [])
    ensures OnByte(Within(rx, p, k).rx, Wire(p)[k]).rx.state != WaitBreak
  {
    EmptyFrameIsMade();
    if 1 <= k <= |p.channels| {
      StoreExtends(p.channels[..k - 1], p.channels[k - 1]);
      assert p.channels[..k] == p.channels[..k - 1] + [p.channels[k - 1]];
      assert p.channels[..|p.channels|] == p.channels;
    } else if k == 0 {
      assert p.channels[..0] == [];
    }
  }

  /** No prefix of the data loses the packet boundary. */
  ghost predicate Steady(rx: Rx, data: seq<byte>) {
    Frames(rx, DataItems(data)).rx.state != WaitBreak && (data == [] || Steady(rx, data[..|data| - 1]))
  }

  lemma SteadySnoc(rx: Rx, data: seq<byte>, b: byte)
    ensures Steady(rx, data + [b]) <==> Steady(rx, data) && Frames(rx, DataItems(data + [b])).rx.state != WaitBreak
  {
    assert (data + [b])[..|data|] == data;
  }

  lemma {:induction false} SteadyAppend(rx: Rx, a: seq<byte>, b: seq<byte>)
    requires Steady(rx, a) && Steady(Frames(rx, DataItems(a)).rx, b)
    ensures Steady(rx, a + b)
  {
    if b == [] {
      assert a + b == a;
    } else {
      SteadyAppend(rx, a, b[..|b| - 1]);
      assert (a + b)[..|a + b| - 1] == a + b[..|b| - 1];
      DataItemsAppend(a, b);
      FramesAppend(rx, DataItems(a), DataItems(b));
    }
  }

  /** A locked machine that never loses the boundary is blind to breaks. */
  lemma {:induction false} BreaksIgnored(rx: Rx, items: seq<Item>)
    requires rx.vote.infer && rx.vote.locked > 0
    requires forall i :: 0 <= i < |items| ==> items[i] != Error
    requires Steady(rx, DataOf(items))
    ensures Frames(rx, items) == Frames(rx, DataItems(DataOf(items)))
    ensures Frames(rx, items).rx.vote == rx.vote
  {
    if items != [] {
      var init, last := items[..|items| - 1], items[|items| - 1];
      hide OnByte;
      if last.Data? {
        FramesByte(rx, DataOf(init), last.value);
        SteadySnoc(rx, DataOf(init), last.value);
      } else {
        assert DataOf(items) == DataOf(init);
      }
      BreaksIgnored(rx, init);
    }
  }

  lemma {:induction false} RunWithin(rx: Rx, p: Packet, k: nat)
    requires AtBoundary(rx, |p.channels|) && k <= |Wire(p)|
    ensures Frames(rx, DataItems(Wire(p)[..k])) == Within(rx, p, k)
    ensures Steady(rx, Wire(p)[..k])
  {
    if k == 0 {
      assert DataItems(Wire(p)[..0]) == [];
    } else {
      RunWithin(rx, p, k - 1);
      assert Wire(p)[..k] == Wire(p)[..k - 1] + [Wire(p)[k - 1]];
      FramesByte(rx, Wire(p)[..k - 1], Wire(p)[k - 1]);
      SteadySnoc(rx, Wire(p)[..k - 1], Wire(p)[k - 1]);
      hide Frames;
      WithinStep(rx, p, k - 1);
    }
  }

  lemma {:induction false} RunAll(rx: Rx, ps: seq<Packet>, n: nat)
    requires AtBoundary(rx, n) && Sized(ps, n)
    ensures Frames(rx, DataItems(WireAll(ps)))
         == Framed(if ps == [] then rx else Rx(WaitStartCode, EMPTY_FRAME, rx.vote), MadeFrom(ps))
    ensures Steady(rx, WireAll(ps))
  {
    if ps == [] {
      assert DataItems(WireAll(ps)) == [];
    } else {
      var init, p := ps[..|ps| - 1], ps[|ps| - 1];
      RunAll(rx, init, n);
      var mid := Frames(rx, DataItems(WireAll(init))).rx;
      RunWithin(mid, p, |Wire(p)|);
      assert Wire(p)[..|Wire(p)|] == Wire(p);
      DataItemsAppend(WireAll(init), Wire(p));
      FramesAppend(rx, DataItems(WireAll(init)), DataItems(Wire(p)));
      SteadyAppend(rx, WireAll(init), Wire(p));
    }
  }

  /** The stream carries packets ps and k bytes of another, p, with breaks anywhere. */
  ghost predicate Carries(items: seq<Item>, ps: seq<Packet>, p: Packet, k: nat)
    requires k <= |Wire(p)|
  {
    (forall i :: 0 <= i < |items| ==> items[i] != Error) && DataOf(items) == WireAll(ps) + Wire(p)[..k]
  }

  /**
   Locked at n and at a packet boundary, packets of n channels and a stray byte
   are emitted exactly, wherever the stream is cut and wherever breaks fall.
   */
  lemma InferredExact(rx: Rx, items: seq<Item>, ps: seq<Packet>, p: Packet, k: nat)
    requires AtBoundary(rx, |p.channels|) && Sized(ps, |p.channels|) && k <= |Wire(p)|
    requires Carries(items, ps, p, k)
    ensures Frames(rx, items).frames
         == MadeFrom(ps) + (if k <= |p.channels| then [] else [MakeFrame(p.channels)])
    ensures Frames(rx, items).rx.vote == rx.vote
  {
    var a, b := WireAll(ps), Wire(p)[..k];
    RunAll(rx, ps, |p.channels|);
    RunWithin(Frames(rx, DataItems(a)).rx, p, k);
    DataItemsAppend(a, b);
    FramesAppend(rx, DataItems(a), DataItems(b));
    SteadyAppend(rx, a, b);
    BreaksIgnored(rx, items);
  }

  /** Two runs that differ only in chunking and in where breaks are claimed emit the same frames. */
  lemma BreakNoiseIrrelevant(rx: Rx, one: seq<Chunk>, two: seq<Chunk>, ps: seq<Packet>, p: Packet, k: nat)
    requires AtBoundary(rx, |p.channels|) && Sized(ps, |p.channels|) && k <= |Wire(p)|
    requires Carries(ChunksItems(one), ps, p, k) && Carries(ChunksItems(two), ps, p, k)
    ensures Frames(rx, ChunksItems(one)).frames == Frames(rx, ChunksItems(two)).frames
  {
    InferredExact(rx, ChunksItems(one), ps, p, k);
    InferredExact(rx, ChunksItems(two), ps, p, k);
  }

  /**
   After any run that took a lock: from where the boundary is lost, by a line error
   or another start code, nothing is emitted until the next break, and packets of
   the locked size that follow that break are emitted exactly.
   */
  lemma RelockedExact(before: seq<Item>, lost: Item, junk: seq<Item>, items: seq<Item>,
                      ps: seq<Packet>, p: Packet, k: nat)
    requires var rx := Frames(Start(true), before).rx;
             rx.vote.locked > 0 && |p.channels| == rx.vote.locked && LosesBoundary(rx, lost)
    requires forall i :: 0 <= i < |junk| ==> junk[i] != Break
    requires Sized(ps, |p.channels|) && k <= |Wire(p)| && |p.channels| <= MAX_CHANNELS && Carries(items, ps, p, k)
    ensures Frames(Start(true), before + ([lost] + junk)).frames == Frames(Start(true), before).frames
    ensures AtBoundary(Frames(Start(true), before + ([lost] + junk + [Break])).rx, |p.channels|)
    ensures Frames(Start(true), before + ([lost] + junk + [Break]) + items).frames
         == Frames(Start(true), before).frames
            + (MadeFrom(ps) + (if k <= |p.channels| then [] else [MakeFrame(p.channels)]))
  {
    hide Frames, MadeFrom, Carries, LosesBoundary, Wire;
    RunInvariant(before);
    var rx := Frames(Start(true), before).rx;
    Resyncs(rx, lost, junk);
    FramesAppend(Start(true), before, [lost] + junk);
    FramesAppend(Start(true), before, [lost] + junk + [Break]);
    FramesAppend(Start(true), before + ([lost] + junk + [Break]), items);
    InferredExact(Frames(rx, [lost] + junk + [Break]).rx, items, ps, p, k);
  }

  // ----- from power-up: which packet sizes are framed right -----

  function Burst(p: Packet): seq<Item> {
    DataItems(Wire(p)) + [Break]
  }

  function Bursts(ps: seq<Packet>): seq<Item> {
    if ps == [] then [] else Bursts(ps[..|ps| - 1]) + Burst(ps[|ps| - 1])
  }

  /** A noise-free stream: a break, then every packet followed by a break. */
  function CleanStream(ps: seq<Packet>): seq<Item> {
    [Break] + Bursts(ps)
  }

  // The length at which a clean break finds the frame: the stray byte is counted, up to the cap.
  function CleanLength(n: nat): nat {
    if n < MAX_CHANNELS then n + 1 else MAX_CHANNELS
  }

  lemma CapGrows(data: seq<byte>)
    ensures |data| <= MAX_CHANNELS ==> Cap(data) == data
    ensures |data| > MAX_CHANNELS ==> Cap(data) == Cap(data[..|data| - 1]) && |Cap(data)| == MAX_CHANNELS
  {
  }

  lemma {:induction false} Collect(rx: Rx, data: seq<byte>)
    requires rx.vote.locked == 0 && rx.state == WaitStartCode && rx.frame == EMPTY_FRAME
    ensures Frames(rx, DataItems([START_CODE_DMX] + data)) == Framed(Rx(ReadData, MakeFrame(Cap(data)), rx.vote), [])
  {
    hide Frames, Cap;
    CapGrows(data);
    if data == [] {
      EmptyFrameIsMade();
      NoFrames(rx);
      assert [START_CODE_DMX] + data == [] + [START_CODE_DMX];
      FramesByte(rx, [], START_CODE_DMX);
      assert DataItems([]) == [];
    } else {
      var init, b := data[..|data| - 1], data[|data| - 1];
      Collect(rx, init);
      CapGrows(init);
      assert [START_CODE_DMX] + data == ([START_CODE_DMX] + init) + [b];
      FramesByte(rx, [START_CODE_DMX] + init, b);
      if |init| < MAX_CHANNELS {
        StoreExtends(init, b);
        assert init + [b] == data;
      }
    }
  }

  /** The state after a clean stream of up to 24 packets of n channels. */
  function Learned(n: nat, count: nat): Rx
    requires 1 <= n <= MAX_CHANNELS && count <= BREAK_VOTE_WINDOW
  {
    Rx(WaitStartCode, EMPTY_FRAME,
       if count < BREAK_VOTE_WINDOW then Vote(multiset{}[CleanLength(n) := count], 0, count, true)
       else Vote(multiset{}, CleanLength(n), BREAK_VOTE_WINDOW, true))
  }

  lemma LearnOne(n: nat, count: nat, p: Packet)
    requires 1 <= n <= MAX_CHANNELS && count < BREAK_VOTE_WINDOW && |p.channels| == n
    ensures Frames(Learned(n, count), Burst(p)) == Framed(Learned(n, count + 1), [])
  {
    var rx := Learned(n, count);
    var d := p.channels + [p.stray];
    assert Wire(p) == [START_CODE_DMX] + d;
    Collect(rx, d);
    FramesSnoc(rx, DataItems(Wire(p)), Break);
    var votes := multiset{}[CleanLength(n) := count] + multiset{CleanLength(n) as int};
    assert votes == multiset{}[CleanLength(n) := count + 1];
    ElectedUnique(votes, Winner(votes), CleanLength(n));
  }

  lemma {:induction false} BurstsAppend(a: seq<Packet>, b: seq<Packet>)
    ensures Bursts(a + b) == Bursts(a) + Bursts(b)
  {
    hide Burst;
    if b == [] {
      assert a + b == a;
    } else {
      BurstsAppend(a, b[..|b| - 1]);
      assert (a + b)[..|a + b| - 1] == a + b[..|b| - 1];
    }
  }

  lemma {:induction false} Learn(ps: seq<Packet>, n: nat)
    requires 1 <= n <= MAX_CHANNELS && Sized(ps, n) && |ps| <= BREAK_VOTE_WINDOW
    ensures Frames(Start(true), CleanStream(ps)) == Framed(Learned(n, |ps|), [])
  {
    hide Frames, Burst;
    if ps == [] {
      assert CleanStream(ps) == [] + [Break];
      NoFrames(Start(true));
      FramesSnoc(Start(true), [], Break);
      assert multiset{}[CleanLength(n) := 0] == multiset{};
    } else {
      var init, p := ps[..|ps| - 1], ps[|ps| - 1];
      Learn(init, n);
      LearnOne(n, |init|, p);
      assert CleanStream(ps) == CleanStream(init) + Burst(p);
      FramesAppend(Start(true), CleanStream(init), Burst(p));
    }
  }

  lemma {:induction false} BurstsCarry(ps: seq<Packet>)
    ensures DataOf(Bursts(ps)) == WireAll(ps)
    ensures forall i :: 0 <= i < |Bursts(ps)| ==> Bursts(ps)[i] != Error
  {
    hide Burst, DataOf, Wire;
    if ps == [] {
      DataOfNothing();
    } else {
      var init, p := ps[..|ps| - 1], ps[|ps| - 1];
      BurstsCarry(init);
      BurstCarries(p);
      DataOfAppend(Bursts(init), Burst(p));
    }
  }

  lemma DataOfNothing()
    ensures DataOf([]) == []
  {
  }

  lemma BurstCarries(p: Packet)
    ensures DataOf(Burst(p)) == Wire(p)
    ensures forall i :: 0 <= i < |Burst(p)| ==> Burst(p)[i] != Error
  {
    DataOfDataItems(Wire(p));
    DataOfAppend(DataItems(Wire(p)), [Break]);
    DataOfMarker(MarkerBreak);
  }

  lemma {:induction false} MadeLengths(ps: seq<Packet>, n: nat)
    requires Sized(ps, n) && n <= MAX_CHANNELS
    ensures |MadeFrom(ps)| == |ps| && forall f :: f in MadeFrom(ps) ==> f.length == n
  {
    if ps != [] {
      MadeLengths(ps[..|ps| - 1], n);
    }
  }

  /** Full packets are learned at their size, and then framed exactly. */
  lemma FullSizeExact(ps: seq<Packet>)
    requires Sized(ps, MAX_CHANNELS) && |ps| > BREAK_VOTE_WINDOW
    ensures Frames(Start(true), CleanStream(ps)).frames == MadeFrom(ps[BREAK_VOTE_WINDOW..])
  {
    hide Frames, Bursts, MadeFrom, WireAll;
    var a, b := ps[..BREAK_VOTE_WINDOW], ps[BREAK_VOTE_WINDOW..];
    CleanSplit(ps);
    Learn(a, MAX_CHANNELS);
    FramesAppend(Start(true), CleanStream(a), Bursts(b));
    BurstsCarry(b);
    assert Wire(b[0])[..0] == [];
    InferredExact(Learned(MAX_CHANNELS, BREAK_VOTE_WINDOW), Bursts(b), b, b[0], 0);
  }

  /** Shorter packets are learned one channel too long, so no frame is right. */
  lemma ShortNotExact(ps: seq<Packet>, n: nat)
    requires 1 <= n < MAX_CHANNELS && Sized(ps, n) && |ps| > BREAK_VOTE_WINDOW
    ensures Frames(Start(true), CleanStream(ps)).frames != MadeFrom(ps[BREAK_VOTE_WINDOW..])
  {
    hide Frames, Bursts, MadeFrom;
    var a, b := ps[..BREAK_VOTE_WINDOW], ps[BREAK_VOTE_WINDOW..];
    CleanSplit(ps);
    Learn(a, n);
    LockPermanent(CleanStream(a), Bursts(b));
    RunInvariant(CleanStream(ps));
    MadeLengths(b, n);
    assert MadeFrom(b)[0] in MadeFrom(b);
  }

  lemma CleanSplit(ps: seq<Packet>)
    requires |ps| > BREAK_VOTE_WINDOW
    ensures CleanStream(ps) == CleanStream(ps[..BREAK_VOTE_WINDOW]) + Bursts(ps[BREAK_VOTE_WINDOW..])
  {
    assert ps == ps[..BREAK_VOTE_WINDOW] + ps[BREAK_VOTE_WINDOW..];
    BurstsAppend(ps[..BREAK_VOTE_WINDOW], ps[BREAK_VOTE_WINDOW..]);
  }

  /**
   From power-up on a noise-free stream of n-channel packets, everything after
   the 24 learning packets is emitted exactly if and only if packets are full:
   a shorter packet is learned one channel too long, because its stray byte is counted.
   */
  lemma ExactIffFullSize(ps: seq<Packet>, n: nat)
    requires 1 <= n <= MAX_CHANNELS && Sized(ps, n) && |ps| > BREAK_VOTE_WINDOW
    ensures Frames(Start(true), CleanStream(ps)).frames == MadeFrom(ps[BREAK_VOTE_WINDOW..]) <==> n == MAX_CHANNELS
  {
    hide Frames, CleanStream, MadeFrom;
    if n == MAX_CHANNELS {
      FullSizeExact(ps);
    } else {
      ShortNotExact(ps, n);
    }
  }

  // ----- from power-up: where noise may put the lock -----

  /** The break that takes the lock also starts a frame, wherever in a packet it falls. */
  lemma LockAtBoundary(before: seq<Item>)
    requires Frames(Start(true), before).rx.vote.locked == 0
    requires Frames(Start(true), before + [Break]).rx.vote.locked > 0
    ensures var rx := Frames(Start(true), before + [Break]).rx;
            rx.state == WaitStartCode && rx.frame == EMPTY_FRAME && AtBoundary(rx, rx.vote.locked)
  {
    RunInvariant(before);
    RunInvariant(before + [Break]);
    FramesSnoc(Start(true), before, Break);
  }

  /** What is left of the packet p after k bytes, then the packets qs, with breaks anywhere. */
  ghost predicate Resumes(items: seq<Item>, p: Packet, k: nat, qs: seq<Packet>)
    requires k <= |Wire(p)|
  {
    (forall i :: 0 <= i < |items| ==> items[i] != Error) && DataOf(items) == Wire(p)[k..] + WireAll(qs)
  }

  /**
   Whatever the bytes after the first k of packet p, the packets that start from
   here on are emitted exactly, and nothing else is.
   */
  ghost predicate FramesTheRest(rx: Rx, p: Packet, k: nat)
    requires k < |Wire(p)|
  {
    forall p': Packet, qs, items ::
      && |p'.channels| == MAX_CHANNELS && k < |Wire(p')| && Wire(p')[..k] == Wire(p)[..k]
      && Sized(qs, MAX_CHANNELS) && Resumes(items, p', k, qs)
      ==> Frames(rx, items).frames == MadeFrom(if k == 0 then [p'] + qs else qs)
  }

  lemma {:induction false} WireAllLength(ps: seq<Packet>)
    requires Sized(ps, MAX_CHANNELS)
    ensures |WireAll(ps)| % 514 == 0
  {
    if ps != [] {
      WireAllLength(ps[..|ps| - 1]);
    }
  }

  lemma WholePackets(ps: seq<Packet>, p: Packet, k: nat)
    requires Sized(ps, MAX_CHANNELS) && |p.channels| == MAX_CHANNELS && k < |Wire(p)|
    ensures |WireAll(ps) + Wire(p)[..k]| % 514 == 0 <==> k == 0
  {
    WireAllLength(ps);
  }

  lemma {:induction false} WireAllFront(p: Packet, qs: seq<Packet>)
    ensures WireAll([p] + qs) == Wire(p) + WireAll(qs)
  {
    if qs == [] {
      assert [p] + qs == [] + [p] && ([p] + qs)[..0] == [];
    } else {
      assert ([p] + qs)[..|qs|] == [p] + qs[..|qs| - 1];
      WireAllFront(p, qs[..|qs| - 1]);
    }
  }

  /** On a packet boundary with the full length learned, whatever follows is framed exactly. */
  lemma BoundaryFramesTheRest(rx: Rx, p: Packet)
    requires AtBoundary(rx, MAX_CHANNELS) && |p.channels| == MAX_CHANNELS
    ensures FramesTheRest(rx, p, 0)
  {
    hide Frames, MadeFrom, WireAll;
    forall p': Packet, qs, items |
      && |p'.channels| == MAX_CHANNELS && Sized(qs, MAX_CHANNELS) && Resumes(items, p', 0, qs)
      ensures Frames(rx, items).frames == MadeFrom([p'] + qs)
    {
      WireAllFront(p', qs);
      assert Wire(p')[0..] == Wire(p');
      assert WireAll([p'] + qs) + Wire(p')[..0] == WireAll([p'] + qs);
      assert MadeFrom([p'] + qs) + [] == MadeFrom([p'] + qs);
      InferredExact(rx, items, [p'] + qs, p', 0);
    }
  }

  /** The packet with the first k bytes of p, and zeros from there on. */
  function Darkened(p: Packet, k: nat): (d: Packet)
    requires |p.channels| == MAX_CHANNELS && 1 <= k < |Wire(p)|
    ensures |d.channels| == MAX_CHANNELS && Wire(d)[..k] == Wire(p)[..k]
    ensures forall i :: k <= i < |Wire(d)| ==> Wire(d)[i] == 0
  {
    Packet(p.channels[..k - 1] + Zeros(MAX_CHANNELS - (k - 1)), 0)
  }

  // A packet with every channel at 1.
  function Lit(): Packet {
    Packet(seq(MAX_CHANNELS, _ => 1), 0)
  }

  /** Inside a packet, zeros and then a lit packet give a frame whose first channel is dark. */
  lemma {:induction false} OffBoundary(rx: Rx, p: Packet, k: nat)
    requires AtBoundary(rx, MAX_CHANNELS) && |p.channels| == MAX_CHANNELS && 1 <= k < |Wire(p)|
    ensures var data := Wire(Darkened(p, k))[k..] + Wire(Lit());
            Frames(rx, DataItems(data)).frames != [MakeFrame(Lit().channels)]
  {
    hide Frames;
    var data := Wire(Darkened(p, k))[k..] + Wire(Lit());
    var seen := Packet(data[1..MAX_CHANNELS + 1], data[MAX_CHANNELS + 1]);
    var rest := data[MAX_CHANNELS + 2..];
    assert data[0] == 0 && seen.channels[0] == data[1] == 0;
    assert data == Wire(seen) + rest;
    RunWithin(rx, seen, |Wire(seen)|);
    assert Wire(seen)[..|Wire(seen)|] == Wire(seen);
    DataItemsAppend(Wire(seen), rest);
    FramesAppend(rx, DataItems(Wire(seen)), DataItems(rest));
    assert Frames(rx, DataItems(data)).frames[0] == MakeFrame(seen.channels);
    assert MakeFrame(seen.channels).channels[0] == 0 && MakeFrame(Lit().channels).channels[0] == 1;
  }

  lemma DataResumes(p: Packet, k: nat, qs: seq<Packet>)
    requires k <= |Wire(p)|
    ensures Resumes(DataItems(Wire(p)[k..] + WireAll(qs)), p, k, qs)
  {
    DataOfDataItems(Wire(p)[k..] + WireAll(qs));
  }

  lemma OnlyPacket(p: Packet)
    requires |p.channels| <= MAX_CHANNELS
    ensures WireAll([p]) == Wire(p) && MadeFrom([p]) == [MakeFrame(p.channels)]
  {
    assert [p][..0] == [];
  }

  /** Off the boundary, or with another length learned, some packets are not framed right. */
  lemma {:induction false} NotFramesTheRest(before: seq<Item>, p: Packet, k: nat)
    requires Frames(Start(true), before).rx.vote.locked > 0 && k < |Wire(p)| && |p.channels| == MAX_CHANNELS
    requires var rx := Frames(Start(true), before).rx;
             AtBoundary(rx, rx.vote.locked) && (rx.vote.locked != MAX_CHANNELS || k > 0)
    ensures !FramesTheRest(Frames(Start(true), before).rx, p, k)
  {
    hide Frames, MadeFrom, WireAll, Resumes;
    var rx := Frames(Start(true), before).rx;
    var p', qs := if k == 0 then p else Darkened(p, k), [Lit()];
    var items := DataItems(Wire(p')[k..] + WireAll(qs));
    DataResumes(p', k, qs);
    OnlyPacket(Lit());
    if rx.vote.locked != MAX_CHANNELS {
      FramesAppend(Start(true), before, items);
      RunInvariant(before + items);
      LockPermanent(before, items);
      var expected := if k == 0 then [p'] + qs else qs;
      MadeLengths(expected, MAX_CHANNELS);
      assert MadeFrom(expected)[0] in MadeFrom(expected);
      var all := Frames(Start(true), before + items).frames;
      assert forall f :: f in Frames(rx, items).frames ==> f in all;
    } else {
      OffBoundary(rx, p, k);
    }
  }

  /**
   On a stream of full-size packets with events anywhere, the break that takes the
   lock leads to exact framing of everything after it, whatever its bytes and
   wherever further breaks fall, if and only if it locks the full length and the
   data before it is a whole number of packets.
   */
  lemma {:induction false} LockExactIff(before: seq<Item>, ps: seq<Packet>, p: Packet, k: nat)
    requires Sized(ps, MAX_CHANNELS) && |p.channels| == MAX_CHANNELS && k < |Wire(p)|
    requires DataOf(before) == WireAll(ps) + Wire(p)[..k]
    requires Frames(Start(true), before).rx.vote.locked == 0
    requires Frames(Start(true), before + [Break]).rx.vote.locked > 0
    ensures FramesTheRest(Frames(Start(true), before + [Break]).rx, p, k)
       <==> Frames(Start(true), before + [Break]).rx.vote.locked == MAX_CHANNELS && |DataOf(before)| % 514 == 0
  {
    hide Frames, FramesTheRest, AtBoundary, WireAll;
    LockAtBoundary(before);
    WholePackets(ps, p, k);
    var rx := Frames(Start(true), before + [Break]).rx;
    if rx.vote.locked == MAX_CHANNELS && k == 0 {
      BoundaryFramesTheRest(rx, p);
    } else {
      NotFramesTheRest(before + [Break], p, k);
    }
  }

  /**
   It can go wrong: after 23 clean packets, a spurious break anywhere among the
   channels of the next one locks the full length there.
   */
  lemma {:induction false} SpuriousLock(ps: seq<Packet>, p: Packet, k: nat)
    requires Sized(ps, MAX_CHANNELS) && |ps| == BREAK_VOTE_WINDOW - 1
    requires |p.channels| == MAX_CHANNELS && 2 <= k <= MAX_CHANNELS + 1
    ensures var before := CleanStream(ps) + DataItems(Wire(p)[..k]);
            && DataOf(before) == WireAll(ps) + Wire(p)[..k]
            && Frames(Start(true), before).rx.vote.locked == 0
            && Frames(Start(true), before + [Break]).rx.vote.locked == MAX_CHANNELS
            && !FramesTheRest(Frames(Start(true), before + [Break]).rx, p, k)
  {
    hide Frames, FramesTheRest, Cap, Bursts;
    var before, data := CleanStream(ps) + DataItems(Wire(p)[..k]), p.channels[..k - 1];
    assert Wire(p)[..k] == [START_CODE_DMX] + data;
    Learn(ps, MAX_CHANNELS);
    Collect(Learned(MAX_CHANNELS, |ps|), data);
    CapGrows(data);
    FramesAppend(Start(true), CleanStream(ps), DataItems(Wire(p)[..k]));
    FramesSnoc(Start(true), before, Break);
    LastVote(k - 1);
    CleanData(ps);
    DataOfDataItems(Wire(p)[..k]);
    DataOfAppend(CleanStream(ps), DataItems(Wire(p)[..k]));
    LockAtBoundary(before);
    NotFramesTheRest(before + [Break], p, k);
  }

  lemma LastVote(length: int)
    requires 1 <= length <= MAX_CHANNELS
    ensures var votes := multiset{}[MAX_CHANNELS := BREAK_VOTE_WINDOW - 1] + multiset{length};
            votes != multiset{} && Winner(votes) == MAX_CHANNELS
  {
    var votes := multiset{}[MAX_CHANNELS := BREAK_VOTE_WINDOW - 1] + multiset{length};
    assert votes[MAX_CHANNELS] >= BREAK_VOTE_WINDOW - 1;
    ElectedUnique(votes, Winner(votes), MAX_CHANNELS);
  }

  lemma CleanData(ps: seq<Packet>)
    ensures DataOf(CleanStream(ps)) == WireAll(ps)
  {
    BurstsCarry(ps);
    assert [Break][..0] == [] && DataOf([Break]) == [];
    DataOfAppend([Break], Bursts(ps));
  }
}
