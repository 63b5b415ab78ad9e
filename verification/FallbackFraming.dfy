/**
 Framing on packet length alone, with a hunt for the packet boundary.
 */
module FallbackFraming {
  import opened Dmx
  import opened BreakFraming
  import opened Alignment
  import opened Provenance

  datatype RawFb = Fb(state: RxState, frame: Frame, syncBuf: seq<byte>, lastData: int)

  /** The open frame always has room: the write of the next channel stays in bounds. */
  type Fb = f: RawFb | f.frame.length < MAX_CHANNELS witness Fb(WaitBreak, EMPTY_FRAME, [], 0)

  datatype Out = Out(fb: Fb, frames: seq<Frame>)

  /** One port read, with the clock reading that follows it. */
  datatype Read = Read(data: seq<byte>, marker: Marker, now: int)

  function Begin(now: int): Fb {
    Fb(WaitBreak, EMPTY_FRAME, [], now)
  }

  function ConsumeByte(fb: Fb, b: byte): Out {
    match fb.state
    case WaitStartCode =>
      Out(fb.(frame := fb.frame.(startCode := b), state := if b == START_CODE_DMX then ReadData else WaitBreak), [])
    case ReadData =>
      var f := fb.frame.Store(b);
      if f.length == MAX_CHANNELS then Out(fb.(frame := EMPTY_FRAME, state := WaitStartCode), [f])
      else Out(fb.(frame := f), [])
    case _ => Out(fb, [])
  }

  function Consume(fb: Fb, data: seq<byte>): Out {
    if data == [] then Out(fb, [])
    else
      var r := Consume(fb, data[..|data| - 1]);
      var s := ConsumeByte(r.fb, data[|data| - 1]);
      Out(s.fb, r.frames + s.frames)
  }

  /** A read that brought nothing: once the line was quiet for the gap, close what is open. */
  function OnIdle(gap: int, fb: Fb, now: int): Out {
    if now - fb.lastData < gap then Out(fb, [])
    else if fb.state == ReadData && fb.frame.length > 0 then
      Out(fb.(frame := EMPTY_FRAME, state := WaitStartCode), [fb.frame])
    else if fb.state == WaitBreak && |fb.syncBuf| > 1 then
      Out(fb.(syncBuf := [], state := WaitStartCode),
          if fb.syncBuf[0] == START_CODE_DMX then [MakeFrame(Cap(fb.syncBuf[1..]))] else [])
    else Out(fb, [])
  }

  function Trim(buf: seq<byte>): seq<byte> {
    if |buf| > 4 * PACKET_SIZE then buf[|buf| - 2 * PACKET_SIZE..] else buf
  }

  ghost function OnData(fb: Fb, data: seq<byte>): Out {
    if fb.state == WaitBreak then
      var buf := fb.syncBuf + data;
      match AlignmentOf(buf)
      case NotFound => Out(fb.(syncBuf := Trim(buf)), [])
      case Found(off) =>
        AlignmentIsLeast(buf);
        Consume(fb.(syncBuf := [], state := WaitStartCode), buf[off..])
    else Consume(fb, data)
  }

  ghost function OnRead(gap: int, fb: Fb, rd: Read): Out {
    if rd.data == [] then OnIdle(gap, fb, rd.now)
    else
      var timed := fb.(lastData := rd.now);
      OnData(if rd.marker == MarkerError then timed.(frame := EMPTY_FRAME, state := WaitBreak) else timed, rd.data)
  }

  ghost function FbRun(gap: int, fb: Fb, rds: seq<Read>): Out {
    if rds == [] then Out(fb, [])
    else
      var r := FbRun(gap, fb, rds[..|rds| - 1]);
      var s := OnRead(gap, r.fb, rds[|rds| - 1]);
      Out(s.fb, r.frames + s.frames)
  }

  function Received(rds: seq<Read>): seq<byte> {
    if rds == [] then [] else Received(rds[..|rds| - 1]) + rds[|rds| - 1].data
  }

  /** The reads as a stream of data and events. */
  function ReadItems(rds: seq<Read>): seq<Item> {
    if rds == [] then []
    else ReadItems(rds[..|rds| - 1]) + ChunkItems(Chunk(rds[|rds| - 1].data, rds[|rds| - 1].marker))
  }

  /** For every read that brought nothing, how much of the stream came before it, counting from `base`. */
  function QuietsOf(base: nat, rds: seq<Read>): seq<nat> {
    if rds == [] then []
    else
      var init, rd := rds[..|rds| - 1], rds[|rds| - 1];
      QuietsOf(base, init) + (if rd.data == [] && rd.marker == MarkerNone then [base + |ReadItems(init)|] else [])
  }

  lemma {:induction false} ReadItemsData(rds: seq<Read>)
    ensures DataOf(ReadItems(rds)) == Received(rds)
  {
    if rds != [] {
      var init, rd := rds[..|rds| - 1], rds[|rds| - 1];
      ReadItemsData(init);
      DataOfDataItems(rd.data);
      DataOfAppend(ReadItems(init), ChunkItems(Chunk(rd.data, rd.marker)));
      DataOfAppend(DataItems(rd.data), MarkerItems(rd.marker));
      DataOfMarker(rd.marker);
    }
  }

  // ----- what every state keeps -----

  /** A hunt alone buffers bytes, and a frame that is not open holds no channel. */
  ghost predicate Tidy(fb: Fb) {
    && fb.state != SkipTrailer
    && (fb.state != WaitBreak ==> fb.syncBuf == [])
    && (fb.state != ReadData ==> fb.frame == EMPTY_FRAME.(startCode := fb.frame.startCode))
  }

  lemma {:induction false} TidyConsume(fb: Fb, data: seq<byte>)
    requires Tidy(fb) && fb.syncBuf == []
    ensures Tidy(Consume(fb, data).fb) && Consume(fb, data).fb.syncBuf == []
  {
    if data != [] {
      TidyConsume(fb, data[..|data| - 1]);
    }
  }

  lemma TidyRead(gap: int, fb: Fb, rd: Read)
    requires Tidy(fb)
    ensures Tidy(OnRead(gap, fb, rd).fb)
  {
    if rd.data != [] {
      var timed := fb.(lastData := rd.now);
      var at := if rd.marker == MarkerError then timed.(frame := EMPTY_FRAME, state := WaitBreak) else timed;
      if at.state != WaitBreak {
        TidyConsume(at, rd.data);
      } else {
        var buf := at.syncBuf + rd.data;
        AlignmentIsLeast(buf);
        if AlignmentOf(buf).Found? {
          TidyConsume(at.(syncBuf := [], state := WaitStartCode), buf[AlignmentOf(buf).off..]);
        }
      }
    }
  }

  lemma {:induction false} TidyRun(gap: int, t0: int, rds: seq<Read>)
    ensures Tidy(FbRun(gap, Begin(t0), rds).fb)
  {
    if rds != [] {
      TidyRun(gap, t0, rds[..|rds| - 1]);
      TidyRead(gap, FbRun(gap, Begin(t0), rds[..|rds| - 1]).fb, rds[|rds| - 1]);
    }
  }

  // ----- safety and provenance -----

  ghost predicate Suffix(s: seq<byte>, data: seq<byte>) {
    |s| <= |data| && s == data[|data| - |s|..]
  }

  ghost predicate FbTraced(data: seq<byte>, fb: Fb, frames: seq<Frame>) {
    && Suffix(fb.syncBuf, data)
    && (fb.state != WaitBreak ==> fb.syncBuf == [])
    && fb.state != SkipTrailer
    && if fb.state == ReadData then exists s: nat :: Opening(data, fb.frame, s) && Sourced(data, frames, s)
       else fb.frame.length == 0 && Sourced(data, frames, |data| - |fb.syncBuf|)
  }

  lemma ChannelTraced(data: seq<byte>, fb: Fb, frames: seq<Frame>, s: nat, b: byte)
    requires fb.state == ReadData && fb.syncBuf == []
    requires s < |data| && Opening(data, fb.frame, s) && Sourced(data, frames, s)
    ensures FbTraced(data + [b], ConsumeByte(fb, b).fb, frames + ConsumeByte(fb, b).frames)
    ensures ConsumeByte(fb, b).fb.syncBuf == []
  {
    hide Sourced, Opening, Window, Suffix;
    var more := data + [b];
    assert frames + [] == frames;
    EmptySuffix(more);
    SourcedGrows(data, [b], frames, s, s);
    OpeningGrows(data, fb.frame, s, b);
    if fb.frame.length + 1 == MAX_CHANNELS {
      SourcedAdd(more, frames, fb.frame.Store(b), s, |more|);
    }
  }

  lemma BoundaryTraced(data: seq<byte>, fb: Fb, frames: seq<Frame>, b: byte)
    requires FbTraced(data, fb, frames) && fb.state != ReadData && fb.syncBuf == []
    ensures FbTraced(data + [b], ConsumeByte(fb, b).fb, frames + ConsumeByte(fb, b).frames)
    ensures ConsumeByte(fb, b).fb.syncBuf == []
  {
    var r, more := ConsumeByte(fb, b), data + [b];
    assert frames + [] == frames;
    SourcedGrows(data, [b], frames, |data|, |data|);
    SourcedGrows(data, [b], frames, |data|, |more|);
    if r.fb.state == ReadData {
      assert Opening(more, r.fb.frame, |data|);
    }
  }

  lemma EmptySuffix(data: seq<byte>)
    ensures Suffix([], data)
  {
  }

  lemma ConsumeByteTraced(data: seq<byte>, fb: Fb, frames: seq<Frame>, b: byte)
    requires FbTraced(data, fb, frames) && fb.syncBuf == []
    ensures FbTraced(data + [b], ConsumeByte(fb, b).fb, frames + ConsumeByte(fb, b).frames)
    ensures ConsumeByte(fb, b).fb.syncBuf == []
  {
    hide Sourced, Suffix, ConsumeByte;
    if fb.state == ReadData {
      var s: nat :| Opening(data, fb.frame, s) && Sourced(data, frames, s);
      ChannelTraced(data, fb, frames, s, b);
    } else {
      BoundaryTraced(data, fb, frames, b);
    }
  }

  lemma {:induction false} ConsumeTraced(before: seq<byte>, fb: Fb, frames: seq<Frame>, data: seq<byte>)
    requires FbTraced(before, fb, frames) && fb.syncBuf == []
    ensures FbTraced(before + data, Consume(fb, data).fb, frames + Consume(fb, data).frames)
    ensures Consume(fb, data).fb.syncBuf == []
  {
    hide ConsumeByte, FbTraced;
    if data == [] {
      assert before + data == before && frames + [] == frames;
    } else {
      var init, b := data[..|data| - 1], data[|data| - 1];
      ConsumeTraced(before, fb, frames, init);
      var r := Consume(fb, init);
      ConsumeByteTraced(before + init, r.fb, frames + r.frames, b);
      assert before + data == (before + init) + [b];
      assert frames + (r.frames + ConsumeByte(r.fb, b).frames) == (frames + r.frames) + ConsumeByte(r.fb, b).frames;
    }
  }

  lemma {:induction false} SourcedShrinks(data: seq<byte>, frames: seq<Frame>, limit: nat, k: nat)
    requires Sourced(data, frames, limit) && limit <= k <= |data|
    ensures Sourced(data[..k], frames, limit)
  {
    if frames != [] {
      var f, before := frames[|frames| - 1], frames[..|frames| - 1];
      var s: nat :| Window(data, f, s, limit) && Sourced(data, before, s);
      assert Window(data[..k], f, s, limit);
      SourcedShrinks(data, before, s, k);
    }
  }

  lemma OpenWindow(data: seq<byte>, f: Frame, s: nat)
    requires Opening(data, f, s) && 0 < f.length
    ensures Window(data, f, s, |data|)
  {
  }

  lemma HuntWindow(data: seq<byte>, buf: seq<byte>)
    requires Suffix(buf, data) && |buf| > 1 && buf[0] == START_CODE_DMX
    ensures Window(data, MakeFrame(Cap(buf[1..])), |data| - |buf|, |data|)
  {
    var s, p := |data| - |buf|, Cap(buf[1..]);
    PayloadOfMade(p);
    assert data[s + 1..s + 1 + |p|] == p;
  }

  lemma IdleTraced(gap: int, data: seq<byte>, fb: Fb, frames: seq<Frame>, now: int)
    requires FbTraced(data, fb, frames)
    ensures FbTraced(data, OnIdle(gap, fb, now).fb, frames + OnIdle(gap, fb, now).frames)
  {
    hide Sourced, Window, Opening, Suffix, MakeFrame;
    var r := OnIdle(gap, fb, now);
    NothingMore(data, frames);
    if r.fb != fb {
      if fb.state == ReadData {
        var s: nat :| Opening(data, fb.frame, s) && Sourced(data, frames, s);
        OpenWindow(data, fb.frame, s);
        SourcedAdd(data, frames, fb.frame, s, |data|);
      } else {
        SuffixBound(fb.syncBuf, data);
        var s := |data| - |fb.syncBuf|;
        SourcedGrows(data, [], frames, s, |data|);
        if fb.syncBuf[0] == START_CODE_DMX {
          HuntWindow(data, fb.syncBuf);
          SourcedAdd(data, frames, MakeFrame(Cap(fb.syncBuf[1..])), s, |data|);
        }
      }
    }
  }

  lemma SuffixBound(s: seq<byte>, data: seq<byte>)
    ensures Suffix(s, data) ==> |s| <= |data|
    ensures Suffix([], data)
  {
  }

  lemma NothingMore(data: seq<byte>, frames: seq<Frame>)
    ensures data + [] == data && frames + [] == frames
  {
  }

  /** Hunting bytes may be joined to the data before them or dropped; what was emitted stays sourced. */
  lemma HuntTraced(data: seq<byte>, more: seq<byte>, fb: Fb, frames: seq<Frame>)
    requires FbTraced(data, fb, frames) && fb.state == WaitBreak
    ensures FbTraced(data + more, OnData(fb, more).fb, frames + OnData(fb, more).frames)
    ensures OnData(fb, more).fb.syncBuf == []
         || (OnData(fb, more).fb.state == WaitBreak && |OnData(fb, more).fb.syncBuf| <= 4 * PACKET_SIZE)
  {
    hide Sourced, Aligned;
    var all, buf := data + more, fb.syncBuf + more;
    var limit := |data| - |fb.syncBuf|;
    SourcedGrows(data, more, frames, limit, limit);
    assert all + [] == all && frames + [] == frames;
    match AlignmentOf(buf)
    case NotFound =>
      var kept := Trim(buf);
      assert kept == all[|all| - |kept|..];
      SourcedGrows(all, [], frames, limit, |all| - |kept|);
    case Found(off) =>
      AlignmentIsLeast(buf);
      FoundTraced(all, limit + off, fb.(syncBuf := [], state := WaitStartCode), frames, limit);
      assert all[limit + off..] == buf[off..];
  }

  lemma FoundTraced(all: seq<byte>, k: nat, start: Fb, frames: seq<Frame>, limit: nat)
    requires limit <= k <= |all| && Sourced(all, frames, limit)
    requires start.state == WaitStartCode && start.syncBuf == [] && start.frame.length == 0
    ensures FbTraced(all, Consume(start, all[k..]).fb, frames + Consume(start, all[k..]).frames)
    ensures Consume(start, all[k..]).fb.syncBuf == []
  {
    hide Sourced, Consume, FbTraced;
    assert all + [] == all && all[..k] + all[k..] == all;
    SourcedGrows(all, [], frames, limit, k);
    SourcedShrinks(all, frames, k, k);
    StartTraced(all[..k], start, frames);
    ConsumeTraced(all[..k], start, frames, all[k..]);
  }

  lemma StartTraced(data: seq<byte>, start: Fb, frames: seq<Frame>)
    requires start.state == WaitStartCode && start.syncBuf == [] && start.frame.length == 0
    requires Sourced(data, frames, |data|)
    ensures FbTraced(data, start, frames)
  {
  }

  lemma ReadTraced(gap: int, data: seq<byte>, fb: Fb, frames: seq<Frame>, rd: Read)
    requires FbTraced(data, fb, frames) && |fb.syncBuf| <= 4 * PACKET_SIZE
    ensures FbTraced(data + rd.data, OnRead(gap, fb, rd).fb, frames + OnRead(gap, fb, rd).frames)
    ensures |OnRead(gap, fb, rd).fb.syncBuf| <= 4 * PACKET_SIZE
  {
    if rd.data == [] {
      assert data + rd.data == data;
      IdleTraced(gap, data, fb, frames, rd.now);
    } else {
      var timed := fb.(lastData := rd.now);
      var at := if rd.marker == MarkerError then timed.(frame := EMPTY_FRAME, state := WaitBreak) else timed;
      assert FbTraced(data, at, frames) by {
        if fb.state == ReadData && rd.marker == MarkerError {
          var s: nat :| Opening(data, fb.frame, s) && Sourced(data, frames, s);
          assert data + [] == data;
          SourcedGrows(data, [], frames, s, |data|);
        }
      }
      if at.state == WaitBreak {
        HuntTraced(data, rd.data, at, frames);
      } else {
        ConsumeTraced(data, at, frames, rd.data);
      }
    }
  }

  /**
   Over every run: the hunting buffer is a suffix of the received bytes, empty
   unless hunting, of at most four packets between reads, and every emitted frame
   is a window of the received bytes.
   */
  lemma {:induction false} FallbackSafety(gap: int, t0: int, rds: seq<Read>)
    ensures var r := FbRun(gap, Begin(t0), rds);
            && FbTraced(Received(rds), r.fb, r.frames)
            && |r.fb.syncBuf| <= 4 * PACKET_SIZE && r.fb.frame.length < MAX_CHANNELS
            && Sourced(Received(rds), r.frames, |Received(rds)|)
  {
    if rds != [] {
      var init, rd := rds[..|rds| - 1], rds[|rds| - 1];
      FallbackSafety(gap, t0, init);
      var r := FbRun(gap, Begin(t0), init);
      ReadTraced(gap, Received(init), r.fb, r.frames, rd);
    }
    FbTracedSourced(Received(rds), FbRun(gap, Begin(t0), rds).fb, FbRun(gap, Begin(t0), rds).frames);
  }

  lemma FbTracedSourced(data: seq<byte>, fb: Fb, frames: seq<Frame>)
    requires FbTraced(data, fb, frames)
    ensures Sourced(data, frames, |data|)
  {
    assert data + [] == data;
    if fb.state == ReadData {
      var s: nat :| Opening(data, fb.frame, s) && Sourced(data, frames, s);
      SourcedGrows(data, [], frames, s, |data|);
    } else {
      SourcedGrows(data, [], frames, |data| - |fb.syncBuf|, |data|);
    }
  }
}
