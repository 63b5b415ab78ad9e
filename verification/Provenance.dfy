/**
 Where emitted frames come from: disjoint windows of the received data, in order,
 each directly preceded by a zero start code.
 */
module Provenance {
  import opened Dmx
  import opened BreakFraming

  /** The frame is the data of its length right after the start code at position s, ending by `limit`. */
  ghost predicate Window(data: seq<byte>, f: Frame, s: nat, limit: nat) {
    && 1 <= f.length && s + 1 + f.length <= limit <= |data|
    && f.startCode == START_CODE_DMX && data[s] == START_CODE_DMX
    && data[s + 1..s + 1 + f.length] == f.Payload()
  }

  /** Every frame has its window, and each window ends before the start code of the next one. */
  ghost predicate Sourced(data: seq<byte>, frames: seq<Frame>, limit: nat) {
    && limit <= |data|
    && (frames != [] ==>
          var f, before := frames[|frames| - 1], frames[..|frames| - 1];
          exists s: nat :: Window(data, f, s, limit) && Sourced(data, before, s))
  }

  lemma {:induction false} SourcedGrows(data: seq<byte>, more: seq<byte>, frames: seq<Frame>, limit: nat, limit': nat)
    requires Sourced(data, frames, limit) && limit <= limit' <= |data + more|
    ensures Sourced(data + more, frames, limit')
  {
    if frames != [] {
      var f := frames[|frames| - 1];
      var s: nat :| Window(data, f, s, limit) && Sourced(data, frames[..|frames| - 1], s);
      assert (data + more)[s + 1..s + 1 + f.length] == data[s + 1..s + 1 + f.length];
      assert Window(data + more, f, s, limit');
      SourcedGrows(data, more, frames[..|frames| - 1], s, s);
    }
  }

  lemma SourcedAdd(data: seq<byte>, frames: seq<Frame>, f: Frame, s: nat, limit: nat)
    requires Window(data, f, s, limit) && Sourced(data, frames, s)
    ensures Sourced(data, frames + [f], limit)
  {
    assert (frames + [f])[..|frames|] == frames;
  }

  /** The open frame is the data after the start code at s, still growing unless it is full. */
  ghost predicate Opening(data: seq<byte>, f: Frame, s: nat) {
    && s + 1 + f.length <= |data|
    && f.startCode == START_CODE_DMX && data[s] == START_CODE_DMX
    && data[s + 1..s + 1 + f.length] == f.Payload()
    && (f.length < MAX_CHANNELS ==> s + 1 + f.length == |data|)
  }

  ghost predicate Traced(data: seq<byte>, rx: Rx, frames: seq<Frame>) {
    if rx.state == ReadData then exists s: nat :: Opening(data, rx.frame, s) && Sourced(data, frames, s)
    else rx.frame.length == 0 && Sourced(data, frames, |data|)
  }

  lemma TracedEvent(data: seq<byte>, rx: Rx, frames: seq<Frame>, event: Item)
    requires Traced(data, rx, frames) && !event.Data?
    ensures Traced(data, OnItem(rx, event).rx, frames + OnItem(rx, event).frames)
  {
    var r := OnItem(rx, event);
    assert frames + [] == frames;
    assert data + [] == data;
    if rx.state == ReadData {
      var s: nat :| Opening(data, rx.frame, s) && Sourced(data, frames, s);
      SourcedGrows(data, [], frames, s, |data|);
      if r.frames != [] {
        SourcedAdd(data, frames, rx.frame, s, |data|);
      }
    }
  }

  lemma OpeningGrows(data: seq<byte>, frame: Frame, s: nat, b: byte)
    requires Opening(data, frame, s)
    ensures var f := if frame.length < MAX_CHANNELS then frame.Store(b) else frame;
            && Opening(data + [b], f, s)
            && (0 < f.length ==> Window(data + [b], f, s, |data + [b]|))
  {
    var more := data + [b];
    assert more[s + 1..s + 1 + frame.length] == data[s + 1..s + 1 + frame.length];
    if frame.length < MAX_CHANNELS {
      var f := frame.Store(b);
      assert f.Payload() == frame.Payload() + [b];
      assert more[s + 1..s + 1 + f.length] == more[s + 1..s + 1 + frame.length] + [b];
    }
  }

  lemma TracedByte(data: seq<byte>, rx: Rx, frames: seq<Frame>, b: byte)
    requires Traced(data, rx, frames)
    ensures Traced(data + [b], OnByte(rx, b).rx, frames + OnByte(rx, b).frames)
  {
    var r, more := OnByte(rx, b), data + [b];
    assert frames + [] == frames;
    if rx.state == ReadData {
      hide Window, Sourced, Opening;
      var s: nat :| Opening(data, rx.frame, s) && Sourced(data, frames, s);
      SourcedGrows(data, [b], frames, s, s);
      var f := if rx.frame.length < MAX_CHANNELS then rx.frame.Store(b) else rx.frame;
      OpeningGrows(data, rx.frame, s, b);
      if r.frames != [] {
        SourcedAdd(more, frames, f, s, |more|);
      }
    } else {
      SourcedGrows(data, [b], frames, |data|, |data|);
      SourcedGrows(data, [b], frames, |data|, |more|);
      if r.rx.state == ReadData {
        assert Opening(more, r.rx.frame, |data|);
      }
    }
  }

  /** Provenance in both break-detecting modes. */
  lemma {:induction false} BreakModeProvenance(infer: bool, items: seq<Item>)
    ensures Traced(DataOf(items), Frames(Start(infer), items).rx, Frames(Start(infer), items).frames)
    ensures Sourced(DataOf(items), Frames(Start(infer), items).frames, |DataOf(items)|)
  {
    if items != [] {
      var init, last := items[..|items| - 1], items[|items| - 1];
      BreakModeProvenance(infer, init);
      var r := Frames(Start(infer), init);
      if last.Data? {
        TracedByte(DataOf(init), r.rx, r.frames, last.value);
      } else {
        assert DataOf(items) == DataOf(init);
        TracedEvent(DataOf(init), r.rx, r.frames, last);
      }
      TracedSourced(DataOf(items), Frames(Start(infer), items).rx, Frames(Start(infer), items).frames);
    }
  }

  lemma TracedSourced(data: seq<byte>, rx: Rx, frames: seq<Frame>)
    requires Traced(data, rx, frames)
    ensures Sourced(data, frames, |data|)
  {
    if rx.state == ReadData {
      var s: nat :| Opening(data, rx.frame, s) && Sourced(data, frames, s);
      assert data + [] == data;
      SourcedGrows(data, [], frames, s, |data|);
    }
  }
}
