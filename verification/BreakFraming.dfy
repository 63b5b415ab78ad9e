/**
 Framing on line events, as a machine over the stream of data bytes and events.
 */
module BreakFraming {
  import opened Dmx
  import opened BreakVote

  datatype RxState = WaitBreak | WaitStartCode | ReadData | SkipTrailer

  datatype Rx = Rx(state: RxState, frame: Frame, vote: Vote)

  datatype Framed = Framed(rx: Rx, frames: seq<Frame>)

  function Start(infer: bool): Rx {
    Rx(WaitBreak, EMPTY_FRAME, NewVote(infer))
  }

  function OnByte(rx: Rx, b: byte): Framed {
    match rx.state
    case WaitBreak => Framed(rx, [])
    case WaitStartCode =>
      Framed(rx.(frame := rx.frame.(startCode := b), state := if b == START_CODE_DMX then ReadData else WaitBreak), [])
    case ReadData =>
      var f := if rx.frame.length < MAX_CHANNELS then rx.frame.Store(b) else rx.frame;
      if rx.vote.infer && rx.vote.locked > 0 && f.length == rx.vote.locked
      then Framed(Rx(SkipTrailer, EMPTY_FRAME, rx.vote), [f])
      else Framed(rx.(frame := f), [])
    case SkipTrailer => Framed(rx.(state := WaitStartCode), [])
  }

  ghost function OnBreak(rx: Rx): Framed {
    if rx.vote.infer && rx.vote.locked > 0 then
      Framed(if rx.state == WaitBreak then rx.(state := WaitStartCode) else rx, [])
    else if rx.state == ReadData && rx.frame.length > 0 then
      var v := Judge(rx.vote, rx.frame.length);
      if v.boundary then Framed(Rx(WaitStartCode, EMPTY_FRAME, v.vote), if v.publish then [rx.frame] else [])
      else Framed(rx.(vote := v.vote), [])
    else
      Framed(Rx(WaitStartCode, EMPTY_FRAME, rx.vote), [])
  }

  ghost function OnItem(rx: Rx, item: Item): Framed {
    match item
    case Data(b) => OnByte(rx, b)
    case Break => OnBreak(rx)
    case Error => Framed(Rx(WaitBreak, EMPTY_FRAME, rx.vote), [])
  }

  /** A whole run: the final state and every frame passed to emit, in order. */
  ghost function Frames(rx: Rx, items: seq<Item>): Framed {
    if items == [] then Framed(rx, [])
    else
      var r := Frames(rx, items[..|items| - 1]);
      var s := OnItem(r.rx, items[|items| - 1]);
      Framed(s.rx, r.frames + s.frames)
  }

  /** What the frame keeps of the data after a start code. */
  function Cap(data: seq<byte>): seq<byte> {
    if |data| <= MAX_CHANNELS then data else data[..MAX_CHANNELS]
  }

  lemma NoFrames(rx: Rx)
    ensures Frames(rx, []) == Framed(rx, [])
  {
  }

  lemma FramesSnoc(rx: Rx, items: seq<Item>, item: Item)
    ensures Frames(rx, items + [item])
         == Framed(OnItem(Frames(rx, items).rx, item).rx,
                   Frames(rx, items).frames + OnItem(Frames(rx, items).rx, item).frames)
  {
    assert (items + [item])[..|items|] == items;
  }

  lemma FramesByte(rx: Rx, data: seq<byte>, b: byte)
    ensures var r := Frames(rx, DataItems(data));
            var s := OnByte(r.rx, b);
            Frames(rx, DataItems(data + [b])) == Framed(s.rx, r.frames + s.frames)
  {
    assert DataItems(data + [b]) == DataItems(data) + [Data(b)];
    FramesSnoc(rx, DataItems(data), Data(b));
  }

  lemma {:induction false} FramesAppend(rx: Rx, a: seq<Item>, b: seq<Item>)
    ensures Frames(rx, a + b).rx == Frames(Frames(rx, a).rx, b).rx
    ensures Frames(rx, a + b).frames == Frames(rx, a).frames + Frames(Frames(rx, a).rx, b).frames
  {
    hide OnItem;
    if b == [] {
      assert a + b == a;
    } else {
      assert (a + b)[..|a + b| - 1] == a + b[..|b| - 1];
      FramesAppend(rx, a, b[..|b| - 1]);
    }
  }

  // ----- losing the boundary and finding it again -----

  /** A line error, or another byte where a start code is due. */
  predicate LosesBoundary(rx: Rx, item: Item) {
    item == Error || (rx.state == WaitStartCode && item.Data? && item.value != START_CODE_DMX)
  }

  /** Nothing but a break ends the wait for one. */
  lemma {:induction false} WaitsForBreak(rx: Rx, junk: seq<Item>)
    requires rx.state == WaitBreak && forall i :: 0 <= i < |junk| ==> junk[i] != Break
    ensures var r := Frames(rx, junk);
            r.frames == [] && (r.rx == rx || r.rx == rx.(frame := EMPTY_FRAME))
  {
    if junk != [] {
      WaitsForBreak(rx, junk[..|junk| - 1]);
    }
  }

  /**
   In every mode, locked or not: from where the boundary is lost nothing is emitted
   until a break, which starts afresh; the open frame is forgotten, the vote kept.
   */
  lemma Resyncs(rx: Rx, lost: Item, junk: seq<Item>)
    requires LosesBoundary(rx, lost) && forall i :: 0 <= i < |junk| ==> junk[i] != Break
    requires rx.state != ReadData ==> rx.frame == EMPTY_FRAME.(startCode := rx.frame.startCode)
    ensures Frames(rx, [lost] + junk).frames == []
    ensures var r := Frames(rx, [lost] + junk + [Break]);
            && r.frames == [] && r.rx.state == WaitStartCode && r.rx.vote == rx.vote
            && r.rx.frame == EMPTY_FRAME.(startCode := r.rx.frame.startCode)
  {
    var at := OnItem(rx, lost).rx;
    NoFrames(rx);
    FramesSnoc(rx, [], lost);
    assert [] + [lost] == [lost];
    FramesAppend(rx, [lost], junk);
    WaitsForBreak(at, junk);
    FramesSnoc(rx, [lost] + junk, Break);
    hide Frames;
  }
}
