/**
 Driver-reported breaks: the frames emitted are exactly the ones that the breaks
 in the stream delimit.
 */
module DriverFraming {
  import opened Dmx
  import opened BreakVote
  import opened BreakFraming

  /** Items i and j are breaks with only data between them: a start code 0 and at least one channel. */
  ghost predicate Segment(items: seq<Item>, i: int, j: int) {
    && 0 <= i && i + 2 < j < |items|
    && items[i] == Break && items[j] == Break
    && items[i + 1] == Data(START_CODE_DMX)
    && forall k :: i < k < j ==> items[k].Data?
  }

  /** The frame that item j closes, if it closes one. */
  ghost function FrameAt(items: seq<Item>, j: int): seq<Frame> {
    if exists i :: Segment(items, i, j)
    then var i :| Segment(items, i, j); [MakeFrame(Cap(DataOf(items[i + 2..j])))]
    else []
  }

  /** The frames that the breaks in the stream delimit, in order of the closing break. */
  ghost function DriverFrames(items: seq<Item>): seq<Frame> {
    if items == [] then [] else DriverFrames(items[..|items| - 1]) + FrameAt(items, |items| - 1)
  }

  /** The position of the last event, -1 if there is none. */
  function LastEvent(items: seq<Item>): (i: int)
    ensures -1 <= i < |items|
    ensures 0 <= i ==> !items[i].Data?
    ensures forall k :: i < k < |items| ==> items[k].Data?
  {
    if items == [] then -1
    else if items[|items| - 1].Data? then LastEvent(items[..|items| - 1])
    else |items| - 1
  }

  /** The data since the last event, start code included. */
  function Tail(items: seq<Item>): seq<byte> {
    DataOf(items[LastEvent(items) + 1..])
  }

  predicate Opened(items: seq<Item>) {
    0 <= LastEvent(items) && items[LastEvent(items)] == Break
  }

  /** What the machine holds after a stream in driver mode. */
  function Holding(items: seq<Item>): Rx {
    if !Opened(items) then Start(false)
    else
      var t := Tail(items);
      if t == [] then Rx(WaitStartCode, EMPTY_FRAME, NewVote(false))
      else if t[0] == START_CODE_DMX then Rx(ReadData, MakeFrame(Cap(t[1..])), NewVote(false))
      else Rx(WaitBreak, EMPTY_FRAME.(startCode := t[0]), NewVote(false))
  }

  lemma TailGrows(items: seq<Item>, b: byte)
    ensures LastEvent(items + [Data(b)]) == LastEvent(items)
    ensures Opened(items + [Data(b)]) == Opened(items)
    ensures Tail(items + [Data(b)]) == Tail(items) + [b]
  {
    var more := items + [Data(b)];
    assert more[..|items|] == items;
    var i := LastEvent(items);
    assert more[i + 1..] == items[i + 1..] + [Data(b)];
    DataOfAppend(items[i + 1..], [Data(b)]);
    assert [Data(b)][..0] == [];
  }

  lemma TailResets(items: seq<Item>, event: Item)
    requires !event.Data?
    ensures Opened(items + [event]) == (event == Break)
    ensures Tail(items + [event]) == []
  {
    var more := items + [event];
    assert LastEvent(more) == |items|;
    assert more[|items| + 1..] == [];
  }

  lemma HoldingByte(items: seq<Item>, b: byte)
    ensures OnByte(Holding(items), b) == Framed(Holding(items + [Data(b)]), [])
  {
    TailGrows(items, b);
    var t := Tail(items);
    hide Tail, Opened, LastEvent;
    EmptyFrameIsMade();
    if Opened(items) && t != [] && t[0] == START_CODE_DMX {
      assert (t + [b])[1..] == t[1..] + [b];
      if |t[1..]| < MAX_CHANNELS {
        StoreExtends(t[1..], b);
      } else {
        assert Cap(t[1..] + [b]) == Cap(t[1..]);
      }
    } else if Opened(items) && t == [] {
      assert (t + [b])[1..] == [];
    }
  }

  /** A break closes a segment exactly when the tail, opened by a break, is a start code and channels. */
  predicate Closable(items: seq<Item>) {
    Opened(items) && |Tail(items)| >= 2 && Tail(items)[0] == START_CODE_DMX
  }

  lemma SegmentIff(items: seq<Item>, i: int)
    ensures Segment(items + [Break], i, |items|) <==> i == LastEvent(items) && Closable(items)
  {
    TailIsData(items);
    var more, i0 := items + [Break], LastEvent(items);
    assert forall k :: 0 <= k < |items| ==> more[k] == items[k];
    if Segment(more, i, |items|) {
      assert items[i] == Break && items[i + 1] == Data(START_CODE_DMX);
      assert 0 <= i0 ==> more[i0] == items[i0];
    }
  }

  lemma SegmentChannels(items: seq<Item>, i: nat)
    requires i == LastEvent(items) && i + 2 < |items|
    ensures Tail(items) != [] && DataOf((items + [Break])[i + 2..|items|]) == Tail(items)[1..]
  {
    hide DataOf, LastEvent;
    SameSlice(items, i + 1);
    var d := items[i + 1..];
    assert forall k :: 0 <= k < |d| ==> d[k] == items[i + 1 + k];
    DataOfRest(d, 1);
  }

  lemma SameSlice(items: seq<Item>, n: nat)
    requires n < |items|
    ensures (items + [Break])[n + 1..|items|] == items[n..][1..]
  {
  }

  function Closed(items: seq<Item>): seq<Frame> {
    if Closable(items) then [MakeFrame(Cap(Tail(items)[1..]))] else []
  }

  lemma FrameAtSegment(items: seq<Item>, i: int, j: int)
    requires Segment(items, i, j) && forall k :: Segment(items, k, j) ==> k == i
    ensures FrameAt(items, j) == [MakeFrame(Cap(DataOf(items[i + 2..j])))]
  {
    hide DataOf, MakeFrame, Cap;
  }

  lemma DriverFramesBreak(items: seq<Item>)
    ensures DriverFrames(items + [Break]) == DriverFrames(items) + Closed(items)
  {
    hide Segment, LastEvent, Tail, DataOf, Closable, MakeFrame, Cap;
    var more, i0, j := items + [Break], LastEvent(items), |items|;
    assert more[..j] == items;
    forall i ensures Segment(more, i, j) <==> i == i0 && Closable(items) {
      SegmentIff(items, i);
    }
    if Closable(items) {
      TailBounds(items);
      SegmentChannels(items, i0);
      FrameAtSegment(more, i0, j);
    }
  }

  lemma TailBounds(items: seq<Item>)
    requires Closable(items)
    ensures 0 <= LastEvent(items) && LastEvent(items) + 2 < |items|
  {
    TailIsData(items);
  }

  /** Only a break closes a segment. */
  lemma DriverFramesOther(items: seq<Item>)
    requires items != [] && items[|items| - 1] != Break
    ensures DriverFrames(items) == DriverFrames(items[..|items| - 1])
  {
    hide DataOf, MakeFrame, Cap;
    var j := |items| - 1;
    assert forall i :: !Segment(items, i, j);
  }

  lemma HoldingBreak(items: seq<Item>)
    ensures OnBreak(Holding(items)) == Framed(Holding(items + [Break]), Closed(items))
  {
    TailResets(items, Break);
    EmptyFrameIsMade();
    hide LastEvent, Tail, Opened;
  }

  lemma TailIsData(items: seq<Item>)
    ensures |Tail(items)| == |items| - 1 - LastEvent(items)
    ensures forall k :: 0 <= k < |Tail(items)| ==> items[LastEvent(items) + 1 + k] == Data(Tail(items)[k])
  {
    DataOfAllData(items[LastEvent(items) + 1..]);
  }

  /** With driver-reported breaks the frames are exactly those that breaks delimit. */
  lemma {:induction false} DriverExact(items: seq<Item>)
    ensures Frames(Start(false), items) == Framed(Holding(items), DriverFrames(items))
  {
    hide Holding, DriverFrames, OnByte, OnBreak;
    if items == [] {
      NothingYet();
    } else {
      var init, last := items[..|items| - 1], items[|items| - 1];
      DriverExact(init);
      assert items == init + [last];
      match last
      case Data(b) => HoldingByte(init, b); DriverFramesOther(items);
      case Break => HoldingBreak(init); DriverFramesBreak(init);
      case Error => HoldingError(init); DriverFramesOther(items);
    }
  }

  lemma NothingYet()
    ensures Holding([]) == Start(false) && DriverFrames([]) == []
  {
  }

  lemma HoldingError(items: seq<Item>)
    ensures Holding(items + [Error]) == Rx(WaitBreak, EMPTY_FRAME, Holding(items).vote)
  {
    TailResets(items, Error);
  }
}
