/**
 Fallback framing on a source of full-size packets: the hunt ends, and sync is
 held exactly as long as the bytes at the packet stride are start codes.
 */
module FallbackSync {
  import opened Dmx
  import opened BreakFraming
  import opened Alignment
  import opened FallbackFraming

  /** How far into a packet a stream of n bytes from a boundary has got. */
  function Phase(n: nat): (r: nat)
    ensures r <= MAX_CHANNELS && r <= n
  {
    n % PACKET_SIZE
  }

  /** The packets that lie wholly in the data, which starts at a packet boundary. */
  function Windows(data: seq<byte>): seq<Frame> {
    if data == [] then []
    else
      Windows(data[..|data| - 1])
      + (if Phase(|data|) == 0 then [MakeFrame(data[|data| - MAX_CHANNELS..])] else [])
  }

  /** There are as many as fit, the k-th made of the 512 bytes after the k-th start code. */
  lemma {:induction false} WindowsAt(data: seq<byte>, k: nat)
    ensures |Windows(data)| == |data| / 513
    ensures k < |Windows(data)| ==> 513 * (k + 1) <= |data| && Windows(data)[k] == MakeFrame(data[513 * k + 1..513 * (k + 1)])
  {
    hide Phase, MakeFrame;
    if data != [] {
      var init := data[..|data| - 1];
      WindowsAt(init, k);
      WindowCount(|init|, k);
      var i, j := 513 * k + 1, 513 * (k + 1);
      if k < |Windows(init)| {
        assert init[i..j] == data[i..j];
      } else if k < |Windows(data)| {
        assert j == |data| && i == |data| - MAX_CHANNELS;
        assert data[i..j] == data[i..];
      }
    }
  }

  lemma WindowCount(n: nat, k: nat)
    ensures (n + 1) / 513 == n / 513 + (if Phase(n + 1) == 0 then 1 else 0)
    ensures k < n / 513 ==> 513 * (k + 1) <= n
    ensures Phase(n + 1) == 0 && k == n / 513 ==> 513 * (k + 1) == n + 1
  {
  }

  /** At a packet boundary with nothing open. */
  ghost predicate AtStart(fb: Fb) {
    fb.state == WaitStartCode && fb.syncBuf == [] && fb.frame == EMPTY_FRAME.(startCode := fb.frame.startCode)
  }

  /** In sync after `data` since a packet boundary: what is open is what lies past the last whole packet. */
  ghost predicate Synced(fb: Fb, data: seq<byte>) {
    var r := Phase(|data|);
    if r == 0 then AtStart(fb)
    else fb.state == ReadData && fb.syncBuf == [] && fb.frame == MakeFrame(data[|data| - r + 1..])
  }

  lemma NextPhase(n: nat)
    ensures Phase(n + 1) == if Phase(n) == MAX_CHANNELS then 0 else Phase(n) + 1
  {
  }

  lemma WindowsSnoc(data: seq<byte>, b: byte)
    ensures Windows(data + [b]) == Windows(data)
              + (if Phase(|data|) == MAX_CHANNELS then [MakeFrame((data + [b])[|data| + 1 - MAX_CHANNELS..])] else [])
  {
    assert (data + [b])[..|data|] == data;
    NextPhase(|data|);
  }

  lemma StoreOpen(data: seq<byte>, b: byte, r: nat)
    requires 1 <= r <= |data| && r <= MAX_CHANNELS
    ensures MakeFrame(data[|data| - r + 1..]).length == r - 1
    ensures MakeFrame(data[|data| - r + 1..]).Store(b) == MakeFrame((data + [b])[|data| - r + 1..])
    ensures MakeFrame((data + [b])[|data| - r + 1..]).length == r
  {
    StoreExtends(data[|data| - r + 1..], b);
    assert (data + [b])[|data| - r + 1..] == data[|data| - r + 1..] + [b];
  }

  lemma BoundaryByte(fb: Fb, data: seq<byte>, b: byte)
    requires Synced(fb, data) && Phase(|data|) == 0
    ensures var s := ConsumeByte(fb, b);
            && s.frames == []
            && (b != START_CODE_DMX ==> s.fb.state == WaitBreak)
            && (b == START_CODE_DMX ==> Synced(s.fb, data + [b]))
  {
    NextPhase(|data|);
    hide Phase;
    EmptyFrameIsMade();
    assert (data + [b])[|data| + 1..] == [];
  }

  lemma ChannelByte(fb: Fb, data: seq<byte>, b: byte)
    requires Synced(fb, data) && Phase(|data|) != 0
    ensures var s := ConsumeByte(fb, b);
            && Synced(s.fb, data + [b])
            && s.frames == if Phase(|data|) == MAX_CHANNELS then [MakeFrame((data + [b])[|data| + 1 - MAX_CHANNELS..])] else []
  {
    NextPhase(|data|);
    StoreOpen(data, b, Phase(|data|));
    hide Phase, MakeFrame;
    assert |data + [b]| == |data| + 1;
  }

  /** One more byte in sync: sync is lost exactly if it is a boundary byte that is not a start code. */
  lemma InSyncByte(fb: Fb, data: seq<byte>, b: byte)
    requires Synced(fb, data)
    ensures var s := ConsumeByte(fb, b);
            if Phase(|data|) == 0 && b != START_CODE_DMX then s.fb.state == WaitBreak && s.frames == []
            else Synced(s.fb, data + [b]) && Windows(data + [b]) == Windows(data) + s.frames
  {
    WindowsSnoc(data, b);
    hide Windows, Synced, ConsumeByte, MakeFrame, Phase;
    if Phase(|data|) == 0 {
      BoundaryByte(fb, data, b);
    } else {
      ChannelByte(fb, data, b);
    }
  }

  lemma AlignedPrefix(data: seq<byte>, off: nat, n: nat)
    requires n <= |data| && Aligned(data, off)
    ensures Aligned(data[..n], off)
  {
  }

  lemma AlignedSnoc(data: seq<byte>, b: byte)
    ensures Aligned(data + [b], 0) <==> Aligned(data, 0) && (Phase(|data|) == 0 ==> b == START_CODE_DMX)
  {
    assert (data + [b])[|data|] == b;
    if Aligned(data + [b], 0) {
      AlignedPrefix(data + [b], 0, |data|);
      assert (data + [b])[..|data|] == data;
    }
  }

  lemma AlignedShift(data: seq<byte>, off: nat)
    requires off <= |data| && off < PACKET_SIZE
    ensures Aligned(data[off..], 0) <==> Aligned(data, off)
  {
    if Aligned(data, off) {
      forall p | 0 <= p < |data| - off && p % PACKET_SIZE == 0
        ensures data[off..][p] == START_CODE_DMX
      {
        Shifted(p, off);
        assert data[off..][p] == data[p + off];
      }
    } else {
      var p :| 0 <= p < |data| && p % PACKET_SIZE == off && data[p] != START_CODE_DMX;
      Shifted(p - off, off);
      assert data[off..][p - off] == data[p];
    }
  }

  lemma Shifted(p: int, off: nat)
    requires off < 513
    ensures p % 513 == 0 <==> (p + off) % 513 == off
    ensures 0 <= p + off && (p + off) % 513 == off ==> p >= 0
  {
  }

  lemma ConsumeSnoc(fb: Fb, data: seq<byte>, b: byte)
    ensures var r := Consume(fb, data);
            var s := ConsumeByte(r.fb, b);
            Consume(fb, data + [b]) == Out(s.fb, r.frames + s.frames)
  {
    assert (data + [b])[..|data|] == data;
  }

  /** Start codes at the stride keep sync: the packets completed are emitted, once and in order. */
  lemma {:induction false} ConsumeInSync(fb: Fb, before: seq<byte>, data: seq<byte>)
    requires Synced(fb, before) && Aligned(before + data, 0)
    ensures Synced(Consume(fb, data).fb, before + data)
    ensures Windows(before + data) == Windows(before) + Consume(fb, data).frames
  {
    if data == [] {
      assert before + data == before;
    } else {
      var init, b := data[..|data| - 1], data[|data| - 1];
      assert data == init + [b] && before + data == (before + init) + [b];
      AlignedSnoc(before + init, b);
      hide Aligned, Synced, Windows, ConsumeByte;
      ConsumeInSync(fb, before, init);
      InSyncByte(Consume(fb, init).fb, before + init, b);
      ConsumeSnoc(fb, init, b);
    }
  }

  /** And only they do: hunting is entered exactly if some boundary byte is not a start code. */
  lemma {:induction false} SyncLostIff(fb: Fb, before: seq<byte>, data: seq<byte>)
    requires Synced(fb, before) && Aligned(before, 0)
    ensures Consume(fb, data).fb.state == WaitBreak <==> !Aligned(before + data, 0)
  {
    if data == [] {
      assert before + data == before;
    } else if Aligned(before + data, 0) {
      ConsumeInSync(fb, before, data);
    } else {
      var init, b := data[..|data| - 1], data[|data| - 1];
      assert data == init + [b] && before + data == (before + init) + [b];
      AlignedSnoc(before + init, b);
      ConsumeSnoc(fb, init, b);
      if Aligned(before + init, 0) {
        ConsumeInSync(fb, before, init);
        InSyncByte(Consume(fb, init).fb, before + init, b);
      } else {
        SyncLostIff(fb, before, init);
      }
    }
  }

  // ----- runs -----

  /** No line error with data, and no idle read outlasting the gap. */
  ghost predicate Flowing(gap: int, fb: Fb, rds: seq<Read>) {
    rds == [] ||
    (var init, rd := rds[..|rds| - 1], rds[|rds| - 1];
     && Flowing(gap, fb, init)
     && if rd.data == [] then rd.now - FbRun(gap, fb, init).fb.lastData < gap
        else rd.marker != MarkerError)
  }

  /** Hunting for the boundary with `data` buffered. */
  ghost predicate Hunting(fb: Fb, data: seq<byte>) {
    fb.state == WaitBreak && fb.syncBuf == data && fb.frame == EMPTY_FRAME.(startCode := fb.frame.startCode)
  }

  /** How far a hunt got: the bytes buffered, or everything from the boundary on that it settled on. */
  datatype Hunt = Searching(buf: seq<byte>) | Anchored(data: seq<byte>)

  ghost function Look(buf: seq<byte>): Hunt {
    match AlignmentOf(buf)
    case NotFound => Searching(Trim(buf))
    case Found(off) =>
      AlignmentIsLeast(buf);
      Anchored(buf[off..])
  }

  ghost function HuntOf(buf: seq<byte>, rds: seq<Read>): Hunt {
    if rds == [] then Searching(buf) else HuntOn(HuntOf(buf, rds[..|rds| - 1]), rds[|rds| - 1].data)
  }

  ghost function HuntOn(h: Hunt, more: seq<byte>): Hunt {
    match h
    case Searching(buf) => if more == [] then h else Look(buf + more)
    case Anchored(data) => Anchored(data + more)
  }

  lemma SyncedNotHunting(fb: Fb, data: seq<byte>, now: int)
    requires Synced(fb, data)
    ensures fb.state != WaitBreak && Synced(fb.(lastData := now), data)
  {
  }

  lemma HuntRead(fb: Fb, buf: seq<byte>, data: seq<byte>)
    requires Hunting(fb, buf)
    ensures var r := OnData(fb, data);
            match Look(buf + data)
            case Searching(b) => Hunting(r.fb, b) && r.frames == []
            case Anchored(from) => Aligned(from, 0) ==> Synced(r.fb, from) && r.frames == Windows(from)
  {
    var all := buf + data;
    AlignmentIsLeast(all);
    if AlignmentOf(all).Found? {
      var from := all[AlignmentOf(all).off..];
      var start := fb.(syncBuf := [], state := WaitStartCode);
      assert Synced(start, []) && [] + from == from;
      if Aligned(from, 0) {
        ConsumeInSync(start, [], from);
      }
    }
  }

  /**
   From any hunting state, whatever it has buffered, on any stream cut into reads
   anyhow: nothing is emitted before the hunt settles on a boundary. As long as the
   bytes at the packet stride from there are start codes, every whole packet from
   there on is emitted once and in order, and hunting is never entered again.
   */
  lemma {:induction false} HoldsSync(gap: int, fb: Fb, rds: seq<Read>)
    requires Hunting(fb, fb.syncBuf) && Flowing(gap, fb, rds)
    ensures var r := FbRun(gap, fb, rds);
            match HuntOf(fb.syncBuf, rds)
            case Searching(buf) => Hunting(r.fb, buf) && r.frames == []
            case Anchored(data) => Aligned(data, 0) ==> Synced(r.fb, data) && r.frames == Windows(data)
  {
    hide Synced, Windows, Consume, AlignmentOf, Aligned, Look;
    if rds != [] {
      var init, rd := rds[..|rds| - 1], rds[|rds| - 1];
      HoldsSync(gap, fb, init);
      var r := FbRun(gap, fb, init);
      var at := r.fb.(lastData := rd.now);
      match HuntOf(fb.syncBuf, init)
      case Searching(buf) =>
        if rd.data != [] {
          HuntRead(at, buf, rd.data);
          HuntReads(gap, r.fb, rd);
        }
      case Anchored(d0) =>
        var data := d0 + rd.data;
        if Aligned(data, 0) {
          AlignedPrefix(data, 0, |d0|);
          assert data[..|d0|] == d0;
          SyncedNotHunting(r.fb, d0, rd.now);
          if rd.data == [] {
            assert data == d0;
          } else {
            ConsumeInSync(at, d0, rd.data);
          }
        }
    }
  }

  lemma HuntReads(gap: int, fb: Fb, rd: Read)
    requires fb.state == WaitBreak && rd.data != [] && rd.marker != MarkerError
    ensures OnRead(gap, fb, rd) == OnData(fb.(lastData := rd.now), rd.data)
  {
  }

  /** The next read sends the receiver hunting exactly if it brings a boundary byte that is not a start code. */
  lemma LosesSyncIff(gap: int, fb: Fb, rds: seq<Read>, rd: Read)
    requires Hunting(fb, fb.syncBuf) && Flowing(gap, fb, rds) && rd.data != [] && rd.marker != MarkerError
    requires HuntOf(fb.syncBuf, rds).Anchored? && Aligned(HuntOf(fb.syncBuf, rds).data, 0)
    ensures FbRun(gap, fb, rds + [rd]).fb.state == WaitBreak
       <==> !Aligned(HuntOf(fb.syncBuf, rds).data + rd.data, 0)
  {
    hide Windows, Consume, Synced, Aligned, HuntOf;
    HoldsSync(gap, fb, rds);
    assert (rds + [rd])[..|rds|] == rds;
    var at := FbRun(gap, fb, rds).fb;
    var data := HuntOf(fb.syncBuf, rds).data;
    SyncedNotHunting(at, data, rd.now);
    SyncLostIff(at.(lastData := rd.now), data, rd.data);
  }

  // ----- where a hunt settles -----

  lemma SuffixGrows(s: seq<byte>, data: seq<byte>, more: seq<byte>)
    requires Suffix(s, data)
    ensures Suffix(s + more, data + more)
  {
    assert s + more == (data + more)[|data| - |s|..];
  }

  lemma LookIsTail(buf: seq<byte>)
    ensures match Look(buf)
            case Searching(b) => Suffix(b, buf) && |b| == if |buf| <= 4 * PACKET_SIZE then |buf| else 2 * PACKET_SIZE
            case Anchored(data) => Suffix(data, buf) && Aligned(data, 0)
  {
    AlignmentIsLeast(buf);
    if AlignmentOf(buf).Found? {
      AlignedShift(buf, AlignmentOf(buf).off);
    }
  }

  lemma SuffixOfGrown(s: seq<byte>, b: seq<byte>, data: seq<byte>, more: seq<byte>)
    requires Suffix(b, data) && Suffix(s, b + more)
    ensures Suffix(s, data + more)
  {
    SuffixGrows(b, data, more);
    var all := data + more;
    assert s == (b + more)[|b + more| - |s|..] == all[|all| - |b + more|..][|b + more| - |s|..];
  }

  /** What is buffered, or what was settled on, is a tail of the stream. */
  ghost predicate IsTail(h: Hunt, stream: seq<byte>) {
    match h
    case Searching(buf) =>
      Suffix(buf, stream) && |buf| <= 4 * PACKET_SIZE && (buf == stream || |buf| >= 2 * PACKET_SIZE)
    case Anchored(data) => Suffix(data, stream)
  }

  lemma TailGrows(h: Hunt, stream: seq<byte>, more: seq<byte>)
    requires IsTail(h, stream)
    ensures IsTail(HuntOn(h, more), stream + more)
  {
    hide Suffix, Look, Aligned;
    match h
    case Searching(buf) =>
      if more == [] {
        assert stream + more == stream;
      } else {
        LookIsTail(buf + more);
        match Look(buf + more)
        case Searching(s) => SuffixOfGrown(s, buf, stream, more);
        case Anchored(s) => SuffixOfGrown(s, buf, stream, more);
      }
    case Anchored(data) => SuffixGrows(data, stream, more);
  }

  /** What a hunt buffers, and what it settles on, is a tail of what came before and during the hunt. */
  lemma {:induction false} HuntIsTail(buf: seq<byte>, rds: seq<Read>)
    requires |buf| <= 4 * PACKET_SIZE
    ensures IsTail(HuntOf(buf, rds), buf + Received(rds))
  {
    hide HuntOn, IsTail;
    if rds == [] {
      assert buf + Received(rds) == buf;
      BufferIsTail(buf);
    } else {
      var init, rd := rds[..|rds| - 1], rds[|rds| - 1];
      HuntIsTail(buf, init);
      TailGrows(HuntOf(buf, init), buf + Received(init), rd.data);
      assert buf + Received(rds) == (buf + Received(init)) + rd.data;
    }
  }

  lemma BufferIsTail(buf: seq<byte>)
    requires |buf| <= 4 * PACKET_SIZE
    ensures IsTail(Searching(buf), buf)
  {
  }

  /** How many bytes had arrived when two packets were first buffered. */
  function Joined(rds: seq<Read>): (n: nat)
    ensures n <= |Received(rds)|
  {
    if rds == [] then 0
    else if |Received(rds[..|rds| - 1])| >= 2 * PACKET_SIZE then Joined(rds[..|rds| - 1])
    else |Received(rds)|
  }

  lemma {:induction false} JoinedBounds(rds: seq<Read>)
    ensures |Received(rds)| >= 2 * PACKET_SIZE ==> Joined(rds) >= 2 * PACKET_SIZE
    ensures |Received(rds)| < 2 * PACKET_SIZE ==> Joined(rds) == |Received(rds)|
  {
    if rds != [] {
      JoinedBounds(rds[..|rds| - 1]);
    }
  }

  /** The offset in everything received that a hunt with nothing buffered settles on. */
  ghost function Settled(rds: seq<Read>): Offset {
    AlignmentOf(Received(rds)[..Joined(rds)])
  }

  /**
   With nothing buffered, on full-size packets joined anywhere, a hunt goes on
   until two packets are buffered and then ends, at most a packet into the stream.
   */
  lemma {:induction false} FreshHunt(rds: seq<Read>, join: nat)
    requires join < PACKET_SIZE && Aligned(Received(rds), join)
    ensures var data := Received(rds);
            if |data| < 2 * PACKET_SIZE then HuntOf([], rds) == Searching(data)
            else
              && Settled(rds).Found? && Settled(rds).off <= join
              && HuntOf([], rds) == Anchored(data[Settled(rds).off..])
  {
    hide FirstAligned, Aligned;
    if rds != [] {
      var init, rd := rds[..|rds| - 1], rds[|rds| - 1];
      var d0, data := Received(init), Received(rds);
      assert d0 == data[..|d0|];
      AlignedPrefix(data, join, |d0|);
      FreshHunt(init, join);
      JoinedBounds(init);
      JoinedBounds(rds);
      if rd.data == [] {
        assert data == d0;
      } else if |d0| < 2 * PACKET_SIZE {
        assert data[..|data|] == data;
        AlignmentIsLeast(data);
      } else {
        assert data[..Joined(rds)] == d0[..Joined(init)];
        AlignmentIsLeast(d0[..Joined(init)]);
        var off := Settled(init).off;
        assert d0[off..] + rd.data == data[off..];
      }
    }
  }

  /** The true boundary is the one found exactly if no smaller offset looks like one in the bytes first buffered. */
  lemma SettledIff(rds: seq<Read>, join: nat)
    requires |Received(rds)| >= 2 * PACKET_SIZE
    requires join < PACKET_SIZE && Aligned(Received(rds), join)
    ensures HuntOf([], rds) == Anchored(Received(rds)[join..])
       <==> forall o :: 0 <= o < join ==> !Aligned(Received(rds)[..Joined(rds)], o)
  {
    hide HuntOf;
    JoinedBounds(rds);
    FreshHunt(rds, join);
    AlignedPrefix(Received(rds), join, Joined(rds));
    AlignmentIsLeast(Received(rds)[..Joined(rds)]);
    assert forall o :: 0 <= o <= join ==> |Received(rds)[o..]| == |Received(rds)| - o;
  }

  /** The boundary settled on lies a whole number of packets from the join. */
  ghost predicate OnBoundary(data: seq<byte>, received: nat, join: nat) {
    (received - |data| - join) % 513 == 0
  }

  /**
   Whatever was buffered before, a hunt on full-size packets that settles on a
   true boundary stays on it: all later bytes at the stride are start codes.
   */
  lemma {:induction false} TrueBoundaryStays(buf: seq<byte>, rds: seq<Read>, join: nat)
    requires join < PACKET_SIZE && Aligned(Received(rds), join)
    requires HuntOf(buf, rds).Anchored? && OnBoundary(HuntOf(buf, rds).data, |Received(rds)|, join)
    ensures Aligned(HuntOf(buf, rds).data, 0)
  {
    hide Aligned, AlignmentOf, Look;
    var init, rd := rds[..|rds| - 1], rds[|rds| - 1];
    var clean := Received(init);
    assert Received(rds)[..|clean|] == clean;
    AlignedPrefix(Received(rds), join, |clean|);
    match HuntOf(buf, init)
    case Searching(b) => LookIsTail(b + rd.data);
    case Anchored(d0) =>
      TrueBoundaryStays(buf, init, join);
      CleanExtends(d0, clean, rd.data, join);
  }

  lemma CleanExtends(data: seq<byte>, clean: seq<byte>, more: seq<byte>, join: nat)
    requires Aligned(data, 0) && join < PACKET_SIZE && Aligned(clean + more, join) && OnBoundary(data, |clean|, join)
    ensures Aligned(data + more, 0)
  {
    forall p | 0 <= p < |data + more| && p % PACKET_SIZE == 0
      ensures (data + more)[p] == START_CODE_DMX
    {
      if p >= |data| {
        SamePhase(p, |clean| - |data|, join);
        assert (clean + more)[p + |clean| - |data|] == (data + more)[p];
      }
    }
  }

  lemma SamePhase(p: nat, shift: int, join: nat)
    requires p % 513 == 0 && (shift - join) % 513 == 0 && join < 513
    ensures (p + shift) % 513 == join
  {
  }

  // ----- a hunt ends -----

  lemma AlignedSuffix(data: seq<byte>, join: nat, n: nat) returns (off: nat)
    requires join < PACKET_SIZE && Aligned(data, join) && n <= |data|
    ensures off < PACKET_SIZE && Aligned(data[n..], off)
  {
    off := (join + (PACKET_SIZE - n % PACKET_SIZE)) % PACKET_SIZE;
    forall p | 0 <= p < |data| - n && p % PACKET_SIZE == off
      ensures data[n..][p] == START_CODE_DMX
    {
      Residues(join, n, p);
      assert data[p + n] == START_CODE_DMX;
    }
  }

  lemma Residues(join: nat, n: nat, p: nat)
    requires join < 513 && p % 513 == (join + (513 - n % 513)) % 513
    ensures (p + n) % 513 == join
  {
  }

  /**
   However the buffer looked before, a hunt on a clean stream of full-size
   packets lasts at most four packets and a chunk.
   */
  lemma {:induction false} HuntBounded(buf: seq<byte>, rds: seq<Read>, join: nat)
    requires |buf| <= 4 * PACKET_SIZE && forall i :: 0 <= i < |rds| ==> |rds[i].data| <= CHUNK_SIZE
    requires join < PACKET_SIZE && Aligned(Received(rds), join)
    requires HuntOf(buf, rds).Searching?
    ensures |Received(rds)| <= 4 * PACKET_SIZE + CHUNK_SIZE
  {
    hide Aligned, AlignmentOf, Suffix, Trim;
    if rds != [] {
      var init, rd := rds[..|rds| - 1], rds[|rds| - 1];
      var before := Received(init);
      assert Received(rds) == before + rd.data;
      assert (before + rd.data)[..|before|] == before;
      AlignedPrefix(before + rd.data, join, |before|);
      HuntBounded(buf, init, join);
      HuntIsTail(buf, init);
      if rd.data != [] && |before| > 4 * PACKET_SIZE {
        var b := HuntOf(buf, init).buf;
        SuffixGrows(b, buf + before, rd.data);
        assert (buf + before) + rd.data == buf + (before + rd.data);
        CleanIsFound(b + rd.data, buf, before + rd.data, join);
      }
    }
  }

  /** A buffer that holds two packets or more of clean bytes alone has an alignment. */
  lemma CleanIsFound(buf: seq<byte>, before: seq<byte>, clean: seq<byte>, join: nat)
    requires Suffix(buf, before + clean) && 2 * PACKET_SIZE <= |buf| <= |clean|
    requires join < PACKET_SIZE && Aligned(clean, join)
    ensures AlignmentOf(buf).Found?
  {
    SuffixWithin(buf, before, clean);
    var off := AlignedSuffix(clean, join, |clean| - |buf|);
    AlignmentIsLeast(buf);
  }

  lemma SuffixWithin(s: seq<byte>, before: seq<byte>, data: seq<byte>)
    requires Suffix(s, before + data) && |s| <= |data|
    ensures s == data[|data| - |s|..]
  {
  }
}
