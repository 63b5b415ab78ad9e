/**
 Whole runs of the merger: the life of every source, its events, and how stale a
 contribution can get.
 */
module MergerRuns {
  import opened Dmx
  import opened Htp
  import opened Merger

  /** One exclusive call on the merger; a tick walks the sources in some order. */
  datatype Step = Arrive(id: SourceID, frame: Frame, now: int) | Tick(now: int, order: seq<SourceID>)

  function After(ss: Sources, timeout: int, st: Step): Sources {
    match st
    case Arrive(id, frame, now) => Updated(ss, id, frame, now)
    case Tick(now, _) => if timeout <= 0 then ss else Expired(ss, timeout, now)
  }

  /** The events that the call attempts to send. */
  function Attempts(ss: Sources, st: Step): seq<SourceEvent> {
    match st
    case Arrive(id, _, _) => if id in ss then Connects(ss, id) else []
    case Tick(_, order) => Disconnects(order)
  }

  ghost predicate Possible(ss: Sources, timeout: int, st: Step) {
    st.Tick? ==> if timeout <= 0 then st.order == [] else Lists(st.order, TimedOutIds(ss, timeout, st.now))
  }

  function Reached(setup: Sources, timeout: int, steps: seq<Step>): Sources {
    if steps == [] then setup
    else After(Reached(setup, timeout, steps[..|steps| - 1]), timeout, steps[|steps| - 1])
  }

  ghost predicate Run(setup: Sources, timeout: int, steps: seq<Step>) {
    steps == [] ||
    (var init := steps[..|steps| - 1];
     Run(setup, timeout, init) && Possible(Reached(setup, timeout, init), timeout, steps[|steps| - 1]))
  }

  function AllAttempts(setup: Sources, timeout: int, steps: seq<Step>): seq<SourceEvent> {
    if steps == [] then []
    else
      var init := steps[..|steps| - 1];
      AllAttempts(setup, timeout, init) + Attempts(Reached(setup, timeout, init), steps[|steps| - 1])
  }

  /** After setup every source is mapped and none has sent anything. */
  ghost predicate JustMapped(ss: Sources) {
    forall id :: id in ss ==> ss[id] == Src(EMPTY_FRAME, ss[id].outputUni, Never, false)
  }

  /** The events about one source, in order: true for connected. */
  function About(id: SourceID, events: seq<SourceEvent>): seq<bool> {
    if events == [] then []
    else
      var last := events[|events| - 1];
      About(id, events[..|events| - 1]) + (if last.id == id then [last.connected] else [])
  }

  lemma {:induction false} AboutAppend(id: SourceID, a: seq<SourceEvent>, b: seq<SourceEvent>)
    ensures About(id, a + b) == About(id, a) + About(id, b)
  {
    if b == [] {
      assert a + b == a;
    } else {
      assert (a + b)[..|a + b| - 1] == a + b[..|b| - 1];
      AboutAppend(id, a, b[..|b| - 1]);
    }
  }

  lemma {:induction false} AboutDisconnects(id: SourceID, order: seq<SourceID>)
    requires forall i, j :: 0 <= i < j < |order| ==> order[i] != order[j]
    ensures About(id, Disconnects(order)) == if id in order then [false] else []
  {
    if order != [] {
      AboutDisconnects(id, order[..|order| - 1]);
    }
  }

  /** Connected, disconnected, connected, ... */
  predicate Alternating(history: seq<bool>) {
    forall i :: 0 <= i < |history| ==> history[i] == (i % 2 == 0)
  }

  /** A source is active when it has been seen; an inactive one has an empty frame; its last event tells which. */
  ghost predicate Sound(s: Src, history: seq<bool>) {
    && (s.active <==> s.lastSeen.At?)
    && (!s.active ==> s.frame == EMPTY_FRAME)
    && Alternating(history)
    && (s.active <==> |history| % 2 == 1)
  }

  lemma AlternatingSnoc(history: seq<bool>, next: bool)
    requires Alternating(history) && (next <==> |history| % 2 == 0)
    ensures Alternating(history + [next]) && (|history + [next]| % 2 == 1 <==> |history| % 2 == 0)
  {
  }

  lemma SoundStep(ss: Sources, timeout: int, st: Step, id: SourceID, history: seq<bool>)
    requires id in ss && Sound(ss[id], history) && Possible(ss, timeout, st)
    ensures id in After(ss, timeout, st)
    ensures Sound(After(ss, timeout, st)[id], history + About(id, Attempts(ss, st)))
  {
    hide About, Alternating;
    assert history + [] == history;
    match st
    case Arrive(sender, _, _) =>
      AboutNothing(id);
      if sender == id && !ss[id].active {
        AboutOne(id, true);
        AlternatingSnoc(history, true);
      } else if sender in ss {
        AboutOther(id, sender);
      }
    case Tick(now, order) =>
      AboutDisconnects(id, order);
      if id in order {
        AlternatingSnoc(history, false);
      }
  }

  lemma AboutNothing(id: SourceID)
    ensures About(id, []) == []
  {
  }

  lemma AboutOne(id: SourceID, connected: bool)
    ensures About(id, [SourceEvent(id, connected)]) == [connected]
  {
    assert [SourceEvent(id, connected)][..0] == [];
  }

  lemma AboutOther(id: SourceID, other: SourceID)
    ensures other != id ==> About(id, [SourceEvent(other, true)]) == []
  {
    assert [SourceEvent(other, true)][..0] == [];
  }

  /**
   Over every run after setup: each source is sound, its events strictly
   alternate starting with connected, and unmapped sources cause none.
   */
  lemma {:induction false} Lifecycle(setup: Sources, timeout: int, steps: seq<Step>)
    requires JustMapped(setup) && Run(setup, timeout, steps)
    ensures Reached(setup, timeout, steps).Keys == setup.Keys
    ensures forall id :: id in setup ==>
              && Sound(Reached(setup, timeout, steps)[id], About(id, AllAttempts(setup, timeout, steps)))
              && Reached(setup, timeout, steps)[id].outputUni == setup[id].outputUni
    ensures forall id :: id !in setup ==> About(id, AllAttempts(setup, timeout, steps)) == []
  {
    if steps != [] {
      var init, st := steps[..|steps| - 1], steps[|steps| - 1];
      Lifecycle(setup, timeout, init);
      var ss, events := Reached(setup, timeout, init), AllAttempts(setup, timeout, init);
      forall id
        ensures About(id, AllAttempts(setup, timeout, steps)) == About(id, events) + About(id, Attempts(ss, st))
      {
        AboutAppend(id, events, Attempts(ss, st));
      }
      forall id | id in setup
        ensures Sound(Reached(setup, timeout, steps)[id], About(id, AllAttempts(setup, timeout, steps)))
      {
        SoundStep(ss, timeout, st, id, About(id, events));
      }
      forall id | id !in setup
        ensures About(id, Attempts(ss, st)) == []
      {
        StrangerSilent(ss, timeout, st, id);
      }
    }
  }

  lemma StrangerSilent(ss: Sources, timeout: int, st: Step, id: SourceID)
    requires id !in ss && Possible(ss, timeout, st)
    ensures About(id, Attempts(ss, st)) == []
  {
    match st
    case Arrive(sender, _, _) => AboutOther(id, sender);
    case Tick(now, order) => AboutDisconnects(id, order);
  }

  // ----- what a source contributes -----

  /** Step i is the last arrival of the source. */
  predicate LastArrival(steps: seq<Step>, id: SourceID, i: nat) {
    && i < |steps| && steps[i].Arrive? && steps[i].id == id
    && forall j :: i < j < |steps| ==> !(steps[j].Arrive? && steps[j].id == id)
  }

  /** No tick since step i came more than the timeout after it. */
  predicate Unexpired(timeout: int, steps: seq<Step>, i: nat) {
    i < |steps| && forall j :: i < j < |steps| && steps[j].Tick? && timeout > 0 ==> steps[j].now - steps[i].now <= timeout
  }

  /** Step i is the source's last arrival, and is not outdated. */
  predicate Counts(timeout: int, steps: seq<Step>, id: SourceID, i: nat) {
    LastArrival(steps, id, i) && Unexpired(timeout, steps, i)
  }

  lemma CountsSnoc(timeout: int, steps: seq<Step>, st: Step, id: SourceID, i: nat)
    ensures Counts(timeout, steps + [st], id, i) <==>
              if st.Arrive? && st.id == id then i == |steps|
              else Counts(timeout, steps, id, i) && (st.Tick? && timeout > 0 ==> st.now - steps[i].now <= timeout)
  {
    var more := steps + [st];
    assert forall j :: 0 <= j < |steps| ==> more[j] == steps[j];
    assert more[|steps|] == st;
    if i < |steps| && Counts(timeout, more, id, i) {
      assert forall j :: i < j < |steps| ==> more[j] == steps[j];
    }
  }

  /**
   Over every run after setup: a source contributes exactly if it has arrived and
   no tick came more than the timeout after its last arrival; what it contributes
   then is the frame of that arrival.
   */
  lemma {:induction false} LatestCounts(setup: Sources, timeout: int, steps: seq<Step>, id: SourceID)
    requires JustMapped(setup) && id in setup
    ensures id in Reached(setup, timeout, steps)
    ensures forall i: nat :: Counts(timeout, steps, id, i) ==>
              Reached(setup, timeout, steps)[id] == Src(steps[i].frame, setup[id].outputUni, At(steps[i].now), true)
    ensures (forall i: nat :: !Counts(timeout, steps, id, i)) ==>
              Reached(setup, timeout, steps)[id] == Src(EMPTY_FRAME, setup[id].outputUni, Never, false)
  {
    if steps != [] {
      var init, st := steps[..|steps| - 1], steps[|steps| - 1];
      LatestCounts(setup, timeout, init, id);
      assert steps == init + [st];
      forall i: nat
        ensures Counts(timeout, steps, id, i) <==>
                  if st.Arrive? && st.id == id then i == |init|
                  else Counts(timeout, init, id, i) && (st.Tick? && timeout > 0 ==> st.now - init[i].now <= timeout)
      {
        CountsSnoc(timeout, init, st, id, i);
      }
      hide Counts, Reached;
      ReachedLast(setup, timeout, steps);
      if st.Arrive? && st.id == id {
        assert Counts(timeout, steps, id, |init|);
      } else if i: nat :| Counts(timeout, init, id, i) {
        OneCounts(timeout, init, id, i);
        assert steps[i] == init[i];
      }
    }
  }

  lemma ReachedLast(setup: Sources, timeout: int, steps: seq<Step>)
    requires steps != []
    ensures Reached(setup, timeout, steps) == After(Reached(setup, timeout, steps[..|steps| - 1]), timeout, steps[|steps| - 1])
  {
  }

  lemma OneCounts(timeout: int, steps: seq<Step>, id: SourceID, i: nat)
    requires Counts(timeout, steps, id, i)
    ensures forall k: nat :: Counts(timeout, steps, id, k) ==> k == i
  {
  }

  // ----- mapping outside setup -----

  /**
   Mapping a source keeps it sound exactly if it is not active: remapping an
   active source forgets it without a disconnected event.
   */
  lemma RemapSoundIff(ss: Sources, id: SourceID, uni: Universe, history: seq<bool>)
    requires id in ss && Sound(ss[id], history)
    ensures Sound(Mapped(ss, id, uni)[id], history) <==> !ss[id].active
  {
  }

  // ----- the calls that make a run -----

  datatype Call = UpdateCall(id: SourceID, frame: Frame, now: int) | TickCall(now: int)

  predicate Performs(call: Call, st: Step) {
    match call
    case UpdateCall(id, frame, now) => st == Arrive(id, frame, now)
    case TickCall(now) => st.Tick? && st.now == now
  }

  /** The merges a call offers: one for the updated source's universe, or one for each universe a tick affects. */
  ghost predicate Yields(ss: Sources, timeout: int, st: Step, merges: seq<OutputFrame>) {
    match st
    case Arrive(id, _, _) =>
      if id !in ss then merges == []
      else
        && |merges| == 1 && merges[0].universe == ss[id].outputUni
        && IsMerge(After(ss, timeout, st), ss[id].outputUni, merges[0].frame)
    case Tick(now, _) =>
      if timeout <= 0 then merges == []
      else MergesOf(After(ss, timeout, st), Affected(ss, TimedOutIds(ss, timeout, now)), merges)
  }

  /** The calls, one after the other, each with its step and the merges it offered. */
  ghost predicate Played(setup: Sources, timeout: int, calls: seq<Call>, steps: seq<Step>, merges: seq<seq<OutputFrame>>) {
    && |steps| == |calls| && |merges| == |calls|
    && Run(setup, timeout, steps)
    && (forall i :: 0 <= i < |calls| ==> Performs(calls[i], steps[i]))
    && (forall i :: 0 <= i < |calls| ==> Yields(Reached(setup, timeout, steps[..i]), timeout, steps[i], merges[i]))
  }

  // ----- staleness -----

  function LastTick(t0: int, calls: seq<Call>): int {
    if calls == [] then t0
    else if calls[|calls| - 1].TickCall? then calls[|calls| - 1].now
    else LastTick(t0, calls[..|calls| - 1])
  }

  function Clock(t0: int, calls: seq<Call>): int {
    if calls == [] then t0 else calls[|calls| - 1].now
  }

  /** The clock does not run backwards, and no call comes later than `period` after the last tick. */
  ghost predicate Paced(t0: int, period: nat, calls: seq<Call>) {
    calls == [] ||
    (var init, call := calls[..|calls| - 1], calls[|calls| - 1];
     Paced(t0, period, init) && Clock(t0, init) <= call.now <= LastTick(t0, init) + period)
  }

  /** If the source contributes, its last update is at most `age` before `clock`, and `timeout` before the last tick. */
  predicate NoOlder(s: Src, tick: int, timeout: int, clock: int, age: int) {
    s.lastSeen.At? ==> tick - timeout <= s.lastSeen.time <= clock <= s.lastSeen.time + age
  }

  /** No source contributes to a merge computed later than its last update plus the timeout plus a tick period. */
  lemma {:induction false} Freshness(setup: Sources, timeout: int, t0: int, period: nat, calls: seq<Call>, steps: seq<Step>)
    requires JustMapped(setup) && timeout > 0 && Paced(t0, period, calls)
    requires |steps| == |calls| && forall i :: 0 <= i < |calls| ==> Performs(calls[i], steps[i])
    ensures forall id :: id in Reached(setup, timeout, steps) ==>
              NoOlder(Reached(setup, timeout, steps)[id], LastTick(t0, calls), timeout, Clock(t0, calls), timeout + period)
  {
    if steps != [] {
      var init, st := steps[..|steps| - 1], steps[|steps| - 1];
      var before, call := calls[..|calls| - 1], calls[|calls| - 1];
      Freshness(setup, timeout, t0, period, before, init);
      TickBound(t0, period, before);
      assert Performs(call, st);
      var ss0, ss := Reached(setup, timeout, init), Reached(setup, timeout, steps);
      forall id | id in ss
        ensures NoOlder(ss[id], LastTick(t0, calls), timeout, call.now, timeout + period)
      {
        assert ss == After(ss0, timeout, st) && id in ss0;
        assert NoOlder(ss0[id], LastTick(t0, before), timeout, Clock(t0, before), timeout + period);
      }
    }
  }

  lemma {:induction false} TickBound(t0: int, period: nat, calls: seq<Call>)
    requires Paced(t0, period, calls)
    ensures LastTick(t0, calls) <= Clock(t0, calls) <= LastTick(t0, calls) + period
  {
    if calls != [] {
      TickBound(t0, period, calls[..|calls| - 1]);
    }
  }

  // ----- the class refines the run -----

  lemma ReachedSnoc(setup: Sources, timeout: int, steps: seq<Step>, st: Step)
    requires Run(setup, timeout, steps) && Possible(Reached(setup, timeout, steps), timeout, st)
    ensures Run(setup, timeout, steps + [st])
    ensures Reached(setup, timeout, steps + [st]) == After(Reached(setup, timeout, steps), timeout, st)
    ensures AllAttempts(setup, timeout, steps + [st])
         == AllAttempts(setup, timeout, steps) + Attempts(Reached(setup, timeout, steps), st)
  {
    assert (steps + [st])[..|steps|] == steps;
  }

  lemma PlayedSnoc(setup: Sources, timeout: int, calls: seq<Call>, steps: seq<Step>, merges: seq<seq<OutputFrame>>,
                   call: Call, st: Step, more: seq<OutputFrame>)
    requires Played(setup, timeout, calls, steps, merges)
    requires var ss := Reached(setup, timeout, steps);
             Possible(ss, timeout, st) && Performs(call, st) && Yields(ss, timeout, st, more)
    ensures Played(setup, timeout, calls + [call], steps + [st], merges + [more])
  {
    hide Run, Reached, Possible, Performs, Yields;
    ReachedSnoc(setup, timeout, steps, st);
    forall i | 0 <= i < |calls + [call]|
      ensures Yields(Reached(setup, timeout, (steps + [st])[..i]), timeout, (steps + [st])[i], (merges + [more])[i])
    {
      assert (steps + [st])[..i] == steps[..i];
      assert steps[..|steps|] == steps;
    }
  }

  lemma NothingPlayed(setup: Sources, timeout: int)
    ensures Played(setup, timeout, [], [], []) && Reached(setup, timeout, []) == setup && AllAttempts(setup, timeout, []) == []
    ensures Concat<OutputFrame>([]) == []
  {
  }

  lemma ConcatSnoc<T>(parts: seq<seq<T>>, more: seq<T>)
    ensures Concat(parts + [more]) == Concat(parts) + more
  {
    assert (parts + [more])[..|parts|] == parts;
  }

  /** One call is one step. */
  method PlayOne(m: Merger, call: Call) returns (ghost st: Step, ghost merges: seq<OutputFrame>)
    requires m.Valid()
    modifies m.sources.Values, m.output, m.events
    ensures m.Valid() && Possible(old(m.Abs()), m.timeout, st) && m.Abs() == After(old(m.Abs()), m.timeout, st)
    ensures Performs(call, st) && Yields(old(m.Abs()), m.timeout, st, merges)
    ensures m.events.offered == old(m.events.offered) + Attempts(old(m.Abs()), st)
    ensures m.output.offered == old(m.output.offered) + merges && old(m.output.taken) <= m.output.taken
  {
    hide IsMerge, MergesOf;
    match call
    case UpdateCall(id, frame, now) =>
      ghost var ss := m.Abs();
      m.Update(id, frame, now);
      st := Arrive(id, frame, now);
      merges := if id in ss then [m.output.queue[|m.output.queue| - 1]] else [];
    case TickCall(now) =>
      ghost var order;
      order, merges := m.ExpireSources(now);
      st := Tick(now, order);
  }

  /** Any calls on the merger, with consumers receiving at any point, are a run of just those calls. */
  method Play(m: Merger, calls: seq<Call>) returns (ghost steps: seq<Step>, ghost merges: seq<seq<OutputFrame>>)
    requires m.Valid()
    modifies m.sources.Values, m.output, m.events
    ensures m.Valid() && Played(old(m.Abs()), m.timeout, calls, steps, merges)
    ensures m.Abs() == Reached(old(m.Abs()), m.timeout, steps)
    ensures m.events.offered == old(m.events.offered) + AllAttempts(old(m.Abs()), m.timeout, steps)
    ensures m.output.offered == old(m.output.offered) + Concat(merges)
  {
    hide Played, Run, Reached, AllAttempts, Possible, Attempts, After, Performs, Yields, Concat;
    ghost var setup := m.Abs();
    steps, merges := [], [];
    NothingPlayed(setup, m.timeout);
    for i := 0 to |calls|
      invariant m.Valid() && m.sources == old(m.sources) && Played(setup, m.timeout, calls[..i], steps, merges)
      invariant m.Abs() == Reached(setup, m.timeout, steps)
      invariant m.events.offered == old(m.events.offered) + AllAttempts(setup, m.timeout, steps)
      invariant m.output.offered == old(m.output.offered) + Concat(merges)
    {
      ghost var st, more;
      st, more := PlayOne(m, calls[i]);
      PlayedStep(setup, m.timeout, calls[..i], steps, merges, calls[i], st, more);
      assert calls[..i] + [calls[i]] == calls[..i + 1];
      steps, merges := steps + [st], merges + [more];
    }
    assert calls[..|calls|] == calls;
  }

  lemma PlayedStep(setup: Sources, timeout: int, calls: seq<Call>, steps: seq<Step>, merges: seq<seq<OutputFrame>>,
                   call: Call, st: Step, more: seq<OutputFrame>)
    requires Played(setup, timeout, calls, steps, merges)
    requires var ss := Reached(setup, timeout, steps);
             Possible(ss, timeout, st) && Performs(call, st) && Yields(ss, timeout, st, more)
    ensures Played(setup, timeout, calls + [call], steps + [st], merges + [more])
    ensures Reached(setup, timeout, steps + [st]) == After(Reached(setup, timeout, steps), timeout, st)
    ensures AllAttempts(setup, timeout, steps + [st])
         == AllAttempts(setup, timeout, steps) + Attempts(Reached(setup, timeout, steps), st)
    ensures Concat(merges + [more]) == Concat(merges) + more
  {
    hide Run, Reached, Possible, Performs, Yields, AllAttempts, After, Attempts, Concat;
    PlayedSnoc(setup, timeout, calls, steps, merges, call, st, more);
    ReachedSnoc(setup, timeout, steps, st);
    ConcatSnoc(merges, more);
  }

  // ----- where merges go -----

  /**
   A tick offers one merge, of the sources as they are after it, for each universe
   that has lost a source by it, and no other.
   */
  lemma TickYields(ss: Sources, timeout: int, st: Step, merges: seq<OutputFrame>)
    requires st.Tick? && Yields(ss, timeout, st, merges)
    ensures var after := After(ss, timeout, st);
            && (forall o :: o in merges ==> IsMerge(after, o.universe, o.frame))
            && (forall i, j :: 0 <= i < j < |merges| ==> merges[i].universe != merges[j].universe)
            && (forall o :: o in merges ==> exists id :: LostBy(ss, after, id, o.universe))
            && (forall id, uni :: LostBy(ss, after, id, uni) ==> exists o :: o in merges && o.universe == uni)
  {
    hide IsMerge;
    var after := After(ss, timeout, st);
    if timeout > 0 {
      var ids := TimedOutIds(ss, timeout, st.now);
      forall o | o in merges
        ensures exists id :: LostBy(ss, after, id, o.universe)
      {
        assert o.universe in Affected(ss, ids);
        var id :| id in ids && ss[id].outputUni == o.universe;
        assert LostBy(ss, after, id, o.universe);
      }
      forall id, uni | LostBy(ss, after, id, uni)
        ensures exists o :: o in merges && o.universe == uni
      {
        assert id in ids && uni in Affected(ss, ids);
      }
    }
  }

  /** The source fed the universe before and feeds nothing after. */
  predicate LostBy(before: Sources, after: Sources, id: SourceID, uni: Universe) {
    && id in before && before[id].lastSeen.At? && before[id].outputUni == uni
    && id in after && after[id].lastSeen == Never
  }

  /** The merge is for a universe that some source was mapped to. */
  ghost predicate Destined(ss: Sources, o: OutputFrame) {
    exists id :: id in ss && ss[id].outputUni == o.universe
  }

  lemma YieldsDestined(ss: Sources, timeout: int, st: Step, merges: seq<OutputFrame>)
    requires Yields(ss, timeout, st, merges)
    ensures forall o :: o in merges ==> Destined(ss, o)
  {
    hide IsMerge;
    forall o | o in merges
      ensures Destined(ss, o)
    {
      if st.Tick? {
        assert o.universe in Affected(ss, TimedOutIds(ss, timeout, st.now));
      }
    }
  }

  lemma RunPrefix(setup: Sources, timeout: int, steps: seq<Step>)
    requires Run(setup, timeout, steps) && steps != []
    ensures Run(setup, timeout, steps[..|steps| - 1])
  {
  }

  /** Every merge of a run is for a universe mapped at setup. */
  lemma {:induction false} PlayedDestined(setup: Sources, timeout: int, calls: seq<Call>, steps: seq<Step>,
                                          merges: seq<seq<OutputFrame>>)
    requires JustMapped(setup) && Played(setup, timeout, calls, steps, merges)
    ensures forall o :: o in Concat(merges) ==> Destined(setup, o)
  {
    hide Run, Possible, Performs, Yields, Reached, JustMapped, Sound;
    if merges != [] {
      var k := |calls| - 1;
      RunPrefix(setup, timeout, steps);
      assert steps == steps[..k] + [steps[k]];
      assert forall i :: 0 <= i < k ==> steps[..k][..i] == steps[..i];
      PlayedDestined(setup, timeout, calls[..k], steps[..k], merges[..k]);
      Lifecycle(setup, timeout, steps[..k]);
      YieldsDestined(Reached(setup, timeout, steps[..k]), timeout, steps[k], merges[k]);
      forall o | o in merges[k]
        ensures Destined(setup, o)
      {
        assert Destined(Reached(setup, timeout, steps[..k]), o);
      }
    }
  }
}
