/**
 The merger: mutable source records, updates and expiry, with the output and
 event channels' consumers receiving at any point.
 */
module Merger {
  import opened Dmx
  import opened Channels
  import opened Htp

  datatype OutputFrame = OutputFrame(frame: Frame, universe: Universe)

  datatype SourceEvent = SourceEvent(id: SourceID, connected: bool)

  class SourceState {
    var frame: Frame
    const outputUni: Universe
    var lastSeen: Seen
    var active: bool

    constructor (outputUni: Universe)
      ensures Abs() == Src(EMPTY_FRAME, outputUni, Never, false)
    {
      frame, this.outputUni, lastSeen, active := EMPTY_FRAME, outputUni, Never, false;
    }

    function Abs(): Src
      reads this
    {
      Src(frame, outputUni, lastSeen, active)
    }
  }

  /** The events of expired sources, in the order in which the map was walked. */
  function Disconnects(order: seq<SourceID>): seq<SourceEvent> {
    if order == [] then [] else Disconnects(order[..|order| - 1]) + [SourceEvent(order[|order| - 1], false)]
  }

  ghost predicate Lists<T(!new)>(order: seq<T>, elements: set<T>) {
    && (forall x :: x in order <==> x in elements)
    && (forall i, j :: 0 <= i < j < |order| ==> order[i] != order[j])
  }

  function TimedOutIds(ss: Sources, timeout: int, now: int): set<SourceID> {
    set id | id in ss && TimedOut(ss[id], timeout, now)
  }

  function Affected(ss: Sources, ids: set<SourceID>): set<Universe>
    requires ids <= ss.Keys
  {
    set id | id in ids :: ss[id].outputUni
  }

  class Merger {
    var sources: map<SourceID, SourceState>
    const timeout: int
    const output: Chan<OutputFrame>
    const events: Chan<SourceEvent>

    ghost predicate Valid()
      reads this, output, events
    {
      && output.Valid() && output.capacity == 4
      && events.Valid() && events.capacity == 8
      && forall a, b :: a in sources && b in sources && a != b ==> sources[a] != sources[b]
    }

    function Abs(): Sources
      reads this, sources.Values
    {
      map id | id in sources :: sources[id].Abs()
    }

    constructor (timeout: int)
      ensures Valid() && sources == map[] && Abs() == map[] && this.timeout == timeout
      ensures fresh(output) && fresh(events) && output.offered == output.taken == [] && events.offered == []
    {
      this.timeout := timeout;
      sources := map[];
      output := new Chan(4);
      events := new Chan(8);
    }

    method AddMapping(id: SourceID, outputUniverse: Universe)
      requires Valid()
      modifies this
      ensures Valid() && fresh(sources.Values - old(sources.Values))
      ensures Abs() == Mapped(old(Abs()), id, outputUniverse)
    {
      var s := new SourceState(outputUniverse);
      sources := sources[id := s];
    }

    /** One source's channels folded into the result. */
    method MergeFrame(result: seq<byte>, f: Frame) returns (r: seq<byte>)
      requires |result| == MAX_CHANNELS
      ensures |r| == MAX_CHANNELS
      ensures forall i :: 0 <= i < MAX_CHANNELS ==>
                r[i] == if i < f.length && f.channels[i] > result[i] then f.channels[i] else result[i]
    {
      r := result;
      for i := 0 to f.length
        invariant |r| == MAX_CHANNELS
        invariant forall k :: 0 <= k < i ==> r[k] == if f.channels[k] > result[k] then f.channels[k] else result[k]
        invariant forall k :: i <= k < MAX_CHANNELS ==> r[k] == result[k]
      {
        if f.channels[i] > r[i] {
          r := r[i := f.channels[i]];
        }
      }
    }

    /** The merge of a universe, in whatever order the sources are visited. */
    method ComputeHTP(uni: Universe) returns (f: Frame)
      requires Valid()
      ensures IsMerge(Abs(), uni, f)
    {
      hide MergeOver;
      f := EMPTY_FRAME;
      MergeOfNone(Abs(), uni);
      var left := sources.Keys;
      ghost var done: set<SourceID> := {};
      while left != {}
        invariant left + done == sources.Keys && left !! done
        invariant MergeOver(Abs(), done, uni, f)
        decreases left
      {
        var id :| id in left;
        left := left - {id};
        var s := sources[id];
        ghost var before := f;
        if s.outputUni == uni && s.lastSeen != Never {
          var channels := MergeFrame(f.channels, s.frame);
          f := Frame(START_CODE_DMX, channels, if s.frame.length > f.length then s.frame.length else f.length);
        }
        MergeStep(Abs(), done, id, uni, before, f);
        done := done + {id};
      }
      assert done == Abs().Keys;
    }

    /** Store a frame, announcing the source if it was not active. */
    method Store(id: SourceID, frame: Frame, now: int)
      requires Valid() && id in sources
      modifies sources[id], events
      ensures Valid() && Abs() == Updated(old(Abs()), id, frame, now)
      ensures events.offered == old(events.offered) + Connects(old(Abs()), id)
    {
      var s := sources[id];
      var wasActive := s.active;
      s.frame := frame;
      s.lastSeen := At(now);
      s.active := true;
      if !wasActive {
        events.Offer(SourceEvent(id, true));
      }
    }

    /**
     Store a new frame and push the merge of its universe. The final send always
     finds room, the new merge is then the newest in the queue, and no other merge
     is lost but the oldest of a full queue.
     */
    method Update(id: SourceID, frame: Frame, now: int)
      requires Valid()
      modifies sources.Values, output, events
      ensures Valid() && Abs() == Updated(old(Abs()), id, frame, now)
      ensures id !in old(Abs()) ==> output.offered == old(output.offered) && events.offered == old(events.offered)
      ensures id in old(Abs()) ==>
                && events.offered == old(events.offered) + Connects(old(Abs()), id)
                && output.queue != []
                && output.offered == old(output.offered) + [output.queue[|output.queue| - 1]]
                && output.queue[|output.queue| - 1].universe == old(Abs())[id].outputUni
                && IsMerge(Abs(), old(Abs())[id].outputUni, output.queue[|output.queue| - 1].frame)
                && Pushed(old(output.taken + output.queue), |old(output.taken)|, output.taken + output.queue,
                          |output.taken|, output.queue[|output.queue| - 1])
                && (|old(output.queue)| < output.capacity ==>
                      output.taken + output.queue
                      == old(output.taken + output.queue) + [output.queue[|output.queue| - 1]])
      ensures old(output.taken) <= output.taken
      ensures id !in old(Abs()) ==> output.taken + output.queue == old(output.taken + output.queue)
    {
      hide MergeOver, IsMerge, Chan.Valid, Updated, Connects;
      if id !in sources {
        NoUpdate(Abs(), id, frame, now);
        return;
      }
      var uni := sources[id].outputUni;
      Store(id, frame, now);
      var merged := ComputeHTP(uni);
      output.ConsumerMayReceive();
      output.SendLatest(OutputFrame(merged, uni));
    }

    /** Clear one record that has timed out. */
    method ExpireRecord(id: SourceID)
      requires Valid() && id in sources
      modifies sources[id], events
      ensures Valid() && Abs() == old(Abs())[id := Src(EMPTY_FRAME, old(Abs())[id].outputUni, Never, false)]
      ensures events.offered == old(events.offered) + [SourceEvent(id, false)]
    {
      var s := sources[id];
      s.frame := EMPTY_FRAME;
      s.lastSeen := Never;
      s.active := false;
      events.Offer(SourceEvent(id, false));
    }

    method ExpireAll(now: int) returns (affected: set<Universe>, ghost order: seq<SourceID>)
      requires Valid()
      modifies sources.Values, events
      ensures Valid() && Abs() == Expired(old(Abs()), timeout, now)
      ensures Lists(order, TimedOutIds(old(Abs()), timeout, now))
      ensures affected == Affected(old(Abs()), TimedOutIds(old(Abs()), timeout, now))
      ensures events.offered == old(events.offered) + Disconnects(order)
    {
      hide Chan.Valid, Walked, ExpiredAmong, TimedOutIds, Affected, Disconnects;
      ghost var ss := Abs();
      affected, order := {}, [];
      NothingWalked(ss, timeout, now);
      var left := sources.Keys;
      ghost var done: set<SourceID> := {};
      while left != {}
        invariant Valid() && left + done == sources.Keys && left !! done
        invariant done <= ss.Keys && Abs() == ExpiredAmong(ss, done, timeout, now)
        invariant Walked(ss, done, timeout, now, order, affected)
        invariant events.offered == old(events.offered) + Disconnects(order)
        decreases left
      {
        var id :| id in left;
        left := left - {id};
        WalkOne(ss, done, id, timeout, now, order, affected);
        var s := sources[id];
        assert s.Abs() == Abs()[id];
        if s.lastSeen != Never && now - s.lastSeen.time > timeout {
          ExpireRecord(id);
          affected := affected + {s.outputUni};
          DisconnectsSnoc(order, id);
          order := order + [id];
        }
        done := done + {id};
      }
      assert done == ss.Keys;
      AllWalked(ss, timeout, now, order, affected);
    }

    method OfferMerges(affected: set<Universe>) returns (ghost merges: seq<OutputFrame>)
      requires Valid()
      modifies output
      ensures Valid() && MergesOf(Abs(), affected, merges)
      ensures output.offered == old(output.offered) + merges && old(output.taken) <= output.taken
    {
      hide MergeOver, IsMerge, MergesOf, Chan.Valid, Subseq;
      merges := [];
      NoMerges(Abs());
      var left := affected;
      ghost var done: set<Universe> := {};
      while left != {}
        invariant Valid() && left + done == affected && left !! done
        invariant MergesOf(Abs(), done, merges)
        invariant output.offered == old(output.offered) + merges && old(output.taken) <= output.taken
        decreases left
      {
        var uni: Universe :| uni in left;
        left := left - {uni};
        var merged := ComputeHTP(uni);
        output.Offer(OutputFrame(merged, uni));
        MergesStep(Abs(), done, merges, OutputFrame(merged, uni));
        merges := merges + [OutputFrame(merged, uni)];
        done := done + {uni};
      }
    }

    /**
     Clear every timed-out source, each with one event, then offer the merge of
     every affected universe once, dropping it if the queue is full.
     */
    method ExpireSources(now: int) returns (ghost order: seq<SourceID>, ghost merges: seq<OutputFrame>)
      requires Valid()
      modifies sources.Values, output, events
      ensures Valid()
      ensures timeout <= 0 ==> Abs() == old(Abs()) && order == [] && merges == []
      ensures timeout > 0 ==>
                && Abs() == Expired(old(Abs()), timeout, now)
                && Lists(order, TimedOutIds(old(Abs()), timeout, now))
                && MergesOf(Abs(), Affected(old(Abs()), TimedOutIds(old(Abs()), timeout, now)), merges)
      ensures events.offered == old(events.offered) + Disconnects(order)
      ensures output.offered == old(output.offered) + merges && old(output.taken) <= output.taken
    {
      order, merges := [], [];
      if timeout <= 0 {
        return;
      }
      var affected;
      affected, order := ExpireAll(now);
      merges := OfferMerges(affected);
    }
  }

  function Connects(ss: Sources, id: SourceID): seq<SourceEvent>
    requires id in ss
  {
    if ss[id].active then [] else [SourceEvent(id, true)]
  }

  /** One merge for each of the universes, in some order. */
  ghost predicate MergesOf(ss: Sources, unis: set<Universe>, merges: seq<OutputFrame>) {
    && (forall m :: m in merges ==> m.universe in unis && IsMerge(ss, m.universe, m.frame))
    && (forall u :: u in unis ==> exists m :: m in merges && m.universe == u)
    && (forall i, j :: 0 <= i < j < |merges| ==> merges[i].universe != merges[j].universe)
  }

  /** The sources in `done` were looked at: who has timed out is listed, with its universe. */
  ghost predicate Walked(ss: Sources, done: set<SourceID>, timeout: int, now: int, order: seq<SourceID>, unis: set<Universe>)
    requires done <= ss.Keys
  {
    && (forall id :: id in order <==> id in done && TimedOut(ss[id], timeout, now))
    && (forall i, j :: 0 <= i < j < |order| ==> order[i] != order[j])
    && unis == set id | id in done && TimedOut(ss[id], timeout, now) :: ss[id].outputUni
  }

  lemma NothingWalked(ss: Sources, timeout: int, now: int)
    ensures Walked(ss, {}, timeout, now, [], {}) && ExpiredAmong(ss, {}, timeout, now) == ss
    ensures Disconnects([]) == []
  {
  }

  lemma WalkOne(ss: Sources, done: set<SourceID>, id: SourceID, timeout: int, now: int,
                order: seq<SourceID>, unis: set<Universe>)
    requires done <= ss.Keys && id in ss && id !in done && Walked(ss, done, timeout, now, order, unis)
    ensures var expired := TimedOut(ss[id], timeout, now);
            Walked(ss, done + {id}, timeout, now, if expired then order + [id] else order,
                   if expired then unis + {ss[id].outputUni} else unis)
    ensures ExpiredAmong(ss, done, timeout, now)[id] == ss[id]
    ensures ExpiredAmong(ss, done + {id}, timeout, now)
         == ExpiredAmong(ss, done, timeout, now)[id := ExpireOne(ss[id], timeout, now)]
  {
    assert forall i :: 0 <= i < |order| ==> order[i] in order;
  }

  lemma AllWalked(ss: Sources, timeout: int, now: int, order: seq<SourceID>, unis: set<Universe>)
    requires Walked(ss, ss.Keys, timeout, now, order, unis)
    ensures Lists(order, TimedOutIds(ss, timeout, now))
    ensures unis == Affected(ss, TimedOutIds(ss, timeout, now))
  {
  }

  lemma DisconnectsSnoc(order: seq<SourceID>, id: SourceID)
    ensures Disconnects(order + [id]) == Disconnects(order) + [SourceEvent(id, false)]
  {
    assert (order + [id])[..|order|] == order;
  }

  lemma NoUpdate(ss: Sources, id: SourceID, frame: Frame, now: int)
    requires id !in ss
    ensures Updated(ss, id, frame, now) == ss
  {
  }

  lemma NoMerges(ss: Sources)
    ensures MergesOf(ss, {}, [])
  {
  }

  lemma MergesStep(ss: Sources, unis: set<Universe>, merges: seq<OutputFrame>, m: OutputFrame)
    requires MergesOf(ss, unis, merges) && m.universe !in unis && IsMerge(ss, m.universe, m.frame)
    ensures MergesOf(ss, unis + {m.universe}, merges + [m])
  {
    var more := merges + [m];
    forall u | u in unis + {m.universe}
      ensures exists x :: x in more && x.universe == u
    {
      if u in unis {
        var x :| x in merges && x.universe == u;
        assert x in more;
      } else {
        assert m in more;
      }
    }
    assert forall i :: 0 <= i < |merges| ==> merges[i] in merges && merges[i].universe in unis;
  }

  lemma MergeOfNone(ss: Sources, uni: Universe)
    ensures MergeOver(ss, {}, uni, EMPTY_FRAME)
  {
  }

  lemma MergeStep(ss: Sources, done: set<SourceID>, id: SourceID, uni: Universe, f: Frame, g: Frame)
    requires id in ss && MergeOver(ss, done, uni, f)
    requires !Contributes(ss, id, uni) ==> g == f
    requires Contributes(ss, id, uni) ==>
               && g.startCode == START_CODE_DMX
               && g.length == (if ss[id].frame.length > f.length then ss[id].frame.length else f.length)
               && forall i :: 0 <= i < MAX_CHANNELS ==>
                    g.channels[i] == if i < ss[id].frame.length && ss[id].frame.channels[i] > f.channels[i]
                                     then ss[id].frame.channels[i] else f.channels[i]
    ensures MergeOver(ss, done + {id}, uni, g)
  {
    forall i: nat | i < MAX_CHANNELS
      ensures g.channels[i] == 0 || Attained(ss, done + {id}, uni, g, i)
    {
      if g.channels[i] == f.channels[i] && f.channels[i] != 0 {
        assert Attained(ss, done, uni, f, i);
        var d :| d in done && Lights(ss, d, uni, i) && ss[d].frame.channels[i] == f.channels[i];
        assert d in done + {id};
      } else if g.channels[i] != 0 {
        assert id in done + {id} && Lights(ss, id, uni, i);
      }
    }
    if g.length != 0 {
      if Contributes(ss, id, uni) && g.length == ss[id].frame.length {
        assert id in done + {id};
      } else {
        var d :| d in done && Contributes(ss, d, uni) && ss[d].frame.length == f.length;
        assert d in done + {id};
      }
    }
  }
}
