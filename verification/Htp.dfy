/**
 Highest takes precedence: the sources of the merger as values, what a merged
 frame is, and how it reacts to changes.
 */
module Htp {
  import opened Dmx

  type Universe = u: int | 0 <= u < 0x10000

  datatype SourceID = Local | ArtNet(universe: int)

  datatype Seen = Never | At(time: int)

  datatype Src = Src(frame: Frame, outputUni: Universe, lastSeen: Seen, active: bool)

  type Sources = map<SourceID, Src>

  predicate Contributes(ss: Sources, id: SourceID, uni: Universe) {
    id in ss && ss[id].outputUni == uni && ss[id].lastSeen.At?
  }

  /** Channel i of a contributing source, if its frame reaches that far. */
  predicate Lights(ss: Sources, id: SourceID, uni: Universe, i: nat) {
    Contributes(ss, id, uni) && i < ss[id].frame.length
  }

  /**
   f is the merge of the sources among `ids`: its length is the greatest length
   and each channel the greatest value, zero if no source reaches that channel.
   */
  ghost predicate MergeOver(ss: Sources, ids: set<SourceID>, uni: Universe, f: Frame) {
    && f.startCode == START_CODE_DMX
    && (forall id :: id in ids && Contributes(ss, id, uni) ==> ss[id].frame.length <= f.length)
    && (f.length == 0 || exists id :: id in ids && Contributes(ss, id, uni) && ss[id].frame.length == f.length)
    && (forall id, i: nat :: id in ids && Lights(ss, id, uni, i) ==> ss[id].frame.channels[i] <= f.channels[i])
    && (forall i: nat :: i < MAX_CHANNELS ==> f.channels[i] == 0 || Attained(ss, ids, uni, f, i))
  }

  ghost predicate Attained(ss: Sources, ids: set<SourceID>, uni: Universe, f: Frame, i: nat)
    requires i < MAX_CHANNELS
  {
    exists id :: id in ids && Lights(ss, id, uni, i) && ss[id].frame.channels[i] == f.channels[i]
  }

  ghost predicate IsMerge(ss: Sources, uni: Universe, f: Frame) {
    MergeOver(ss, ss.Keys, uni, f)
  }

  // ----- reactions -----

  /** Every contribution to the universe in `low` is matched or exceeded in `high`. */
  ghost predicate Outshone(low: Sources, high: Sources, uni: Universe) {
    forall id :: Contributes(low, id, uni) ==>
      && Contributes(high, id, uni)
      && low[id].frame.length <= high[id].frame.length
      && forall i: nat :: i < low[id].frame.length ==> low[id].frame.channels[i] <= high[id].frame.channels[i]
  }

  ghost predicate Below(f: Frame, g: Frame) {
    f.length <= g.length && forall i :: 0 <= i < MAX_CHANNELS ==> f.channels[i] <= g.channels[i]
  }

  /** Merging is monotone: more or brighter sources never lower a channel, fewer never raise one. */
  lemma MergeMonotone(low: Sources, high: Sources, uni: Universe, f: Frame, g: Frame)
    requires Outshone(low, high, uni) && IsMerge(low, uni, f) && IsMerge(high, uni, g)
    ensures Below(f, g)
  {
    forall i: nat | i < MAX_CHANNELS
      ensures f.channels[i] <= g.channels[i]
    {
      if f.channels[i] != 0 {
        assert Attained(low, low.Keys, uni, f, i);
        var id :| id in low.Keys && Lights(low, id, uni, i) && low[id].frame.channels[i] == f.channels[i];
        assert Lights(high, id, uni, i);
      }
    }
  }

  /** There is only one merge, so the order in which sources are visited cannot matter. */
  lemma MergeUnique(ss: Sources, uni: Universe, f: Frame, g: Frame)
    requires IsMerge(ss, uni, f) && IsMerge(ss, uni, g)
    ensures f == g
  {
    MergeMonotone(ss, ss, uni, f, g);
    MergeMonotone(ss, ss, uni, g, f);
    assert f.channels == g.channels;
  }

  /** A merged frame is dark past its length: the packet padding is zero. */
  lemma MergePadding(ss: Sources, uni: Universe, f: Frame, i: nat)
    requires IsMerge(ss, uni, f) && f.length <= i < MAX_CHANNELS
    ensures f.channels[i] == 0
  {
    assert f.channels[i] == 0 || Attained(ss, ss.Keys, uni, f, i);
  }

  /** The only source of a universe passes through unchanged. */
  lemma SoleSource(ss: Sources, id: SourceID, uni: Universe, f: Frame)
    requires IsMerge(ss, uni, f) && Contributes(ss, id, uni)
    requires forall other :: Contributes(ss, other, uni) ==> other == id
    ensures f.length == ss[id].frame.length && f.Payload() == ss[id].frame.Payload()
  {
    forall i: nat | i < f.length
      ensures f.channels[i] == ss[id].frame.channels[i]
    {
      assert Lights(ss, id, uni, i);
      assert f.channels[i] == 0 || Attained(ss, ss.Keys, uni, f, i);
    }
  }

  // ----- the merger's operations, on values -----

  function Mapped(ss: Sources, id: SourceID, uni: Universe): Sources {
    ss[id := Src(EMPTY_FRAME, uni, Never, false)]
  }

  function Updated(ss: Sources, id: SourceID, frame: Frame, now: int): Sources {
    if id in ss then ss[id := Src(frame, ss[id].outputUni, At(now), true)] else ss
  }

  predicate TimedOut(s: Src, timeout: int, now: int) {
    s.lastSeen.At? && now - s.lastSeen.time > timeout
  }

  function ExpireOne(s: Src, timeout: int, now: int): Src {
    if TimedOut(s, timeout, now) then Src(EMPTY_FRAME, s.outputUni, Never, false) else s
  }

  function ExpiredAmong(ss: Sources, done: set<SourceID>, timeout: int, now: int): Sources {
    map id | id in ss :: if id in done then ExpireOne(ss[id], timeout, now) else ss[id]
  }

  function Expired(ss: Sources, timeout: int, now: int): Sources {
    ExpiredAmong(ss, ss.Keys, timeout, now)
  }

  /** Brightening the frame of a source never lowers its universe; other universes keep their merge. */
  lemma UpdateReaction(ss: Sources, id: SourceID, frame: Frame, now: int, uni: Universe, f: Frame, g: Frame)
    requires id in ss && IsMerge(ss, uni, f) && IsMerge(Updated(ss, id, frame, now), uni, g)
    ensures ss[id].outputUni != uni ==> f == g
    ensures ss[id].lastSeen == Never || Below(ss[id].frame, frame) ==> Below(f, g)
  {
    var after := Updated(ss, id, frame, now);
    if ss[id].outputUni != uni {
      assert Outshone(ss, after, uni) && Outshone(after, ss, uni);
      MergeMonotone(after, ss, uni, g, f);
      MergeMonotone(ss, after, uni, f, g);
      assert f.channels == g.channels;
    } else if ss[id].lastSeen == Never || Below(ss[id].frame, frame) {
      assert Outshone(ss, after, uni);
      MergeMonotone(ss, after, uni, f, g);
    }
  }

  /** Mapping a source never raises a channel, and changes nothing if the source was not contributing. */
  lemma MappingReaction(ss: Sources, id: SourceID, to: Universe, uni: Universe, f: Frame, g: Frame)
    requires IsMerge(ss, uni, f) && IsMerge(Mapped(ss, id, to), uni, g)
    ensures Below(g, f)
    ensures !Contributes(ss, id, uni) ==> f == g
  {
    var after := Mapped(ss, id, to);
    assert Outshone(after, ss, uni);
    MergeMonotone(after, ss, uni, g, f);
    if !Contributes(ss, id, uni) {
      assert Outshone(ss, after, uni);
      MergeMonotone(ss, after, uni, f, g);
      assert f.channels == g.channels;
    }
  }

  /** Expiry never raises a channel, and leaves universes without an expired source alone. */
  lemma ExpiryReaction(ss: Sources, timeout: int, now: int, uni: Universe, f: Frame, g: Frame)
    requires IsMerge(ss, uni, f) && IsMerge(Expired(ss, timeout, now), uni, g)
    ensures Below(g, f)
    ensures (forall id :: Contributes(ss, id, uni) ==> !TimedOut(ss[id], timeout, now)) ==> f == g
  {
    var after := Expired(ss, timeout, now);
    assert Outshone(after, ss, uni);
    MergeMonotone(after, ss, uni, g, f);
    if forall id :: Contributes(ss, id, uni) ==> !TimedOut(ss[id], timeout, now) {
      assert Outshone(ss, after, uni);
      MergeMonotone(ss, after, uni, f, g);
      assert f.channels == g.channels;
    }
  }
}
