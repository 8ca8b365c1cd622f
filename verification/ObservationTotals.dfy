/**
 Counters, the two series the registry keeps about itself, and the event queue, over any run.
 */
module ObservationTotals {
  import opened ObservationHistogram
  import opened ObservationRegistry
  import opened ObservationWindows
  import opened ObservationLaws
  import opened Words

  // Counters

  lemma CounterOfMoments(current: Moment, earlier: Moment, name: string)
    requires MomentSized(current) && MomentSized(earlier) && name in current.counters
    ensures name in MomentSince(current, earlier).counters
    ensures MomentSince(current, earlier).counters[name] == Minus(current.counters[name], EarlierCount(earlier, name))
  {
  }

  /** A window's counter is the difference between what had been added at its end and what it started from. */
  lemma CounterWindow(bounds: Bounds, actions: seq<Action>, i: nat, name: string) returns (earlier: u64)
    requires i < |Windows(Run(bounds, actions).log)|
    requires name in Tracked(bounds.maxSeries, Count, actions[..WindowAt(bounds, actions, i).to])
    ensures var w := WindowAt(bounds, actions, i);
            && earlier == EarlierCount(Opening(bounds, actions, i == 0, w.from), name)
            && name in w.moment.counters
            && w.moment.counters[name] ==
               Minus(Wrap(SumOf(Landed(bounds.maxSeries, Count, actions[..w.to], name))), earlier)
  {
    hide Run, Tracked, Landed, Wrap, SumOf, MomentSince, EarlierCount;
    RunLog(bounds, actions);
    var w := WindowAt(bounds, actions, i);
    assert Tiles(bounds, actions, Windows(Run(bounds, actions).log), i);
    RegistryCounts(bounds, actions[..w.to]);
    earlier := EarlierCount(Opening(bounds, actions, i == 0, w.from), name);
    CounterOfMoments(MomentAt(bounds, actions, w.to), Opening(bounds, actions, i == 0, w.from), name);
  }

  lemma {:induction false} SumNone(max: nat, kind: Kind, actions: seq<Action>, name: string)
    requires name !in Tracked(max, kind, actions)
    ensures Wrap(SumOf(Landed(max, kind, actions, name))) == 0
  {
    LandedShort(max, kind, actions, name);
  }

  lemma NoneTracked(max: nat)
    ensures Tracked(max, Count, []) == {}
  {
  }

  /** Whether a window starts a counter from what was added to it before. */
  predicate StartsRight(bounds: Bounds, actions: seq<Action>, i: nat, from: nat, name: string)
    requires from <= |actions|
  {
    || i == 0
    || name in Tracked(bounds.maxSeries, Count, actions[..from])
    || (name != OVERFLOW && name != EVENTS_DROPPED)
  }

  lemma EarlierCountRight(bounds: Bounds, actions: seq<Action>, i: nat, from: nat, name: string)
    requires from <= |actions| && (i == 0 ==> from == 0) && StartsRight(bounds, actions, i, from, name)
    ensures EarlierCount(Opening(bounds, actions, i == 0, from), name) ==
            Wrap(SumOf(Landed(bounds.maxSeries, Count, actions[..from], name)))
  {
    hide Run, Landed, Tracked, Wrap, SumOf, Snapshots;
    var max, past := bounds.maxSeries, actions[..from];
    RegistryCounts(bounds, past);
    if i == 0 {
      assert past == [];
      NoneTracked(max);
    }
    if i == 0 || name !in Tracked(max, Count, past) {
      SumNone(max, Count, past, name);
    }
  }

  /** A window's counter is the sum of what was added in it, exactly when the stored one does not wrap. */
  lemma CounterWindowExact(bounds: Bounds, actions: seq<Action>, i: nat, name: string)
    requires i < |Windows(Run(bounds, actions).log)|
    requires name in Tracked(bounds.maxSeries, Count, actions[..WindowAt(bounds, actions, i).to])
    requires StartsRight(bounds, actions, i, WindowAt(bounds, actions, i).from, name)
    ensures var w := WindowAt(bounds, actions, i);
            var since := LandedBetween(bounds.maxSeries, Count, actions, w.from, w.to, name);
            && name in w.moment.counters
            && (w.moment.counters[name] == SumOf(since) <==>
                  Wrap(SumOf(Landed(bounds.maxSeries, Count, actions[..w.from], name))) + SumOf(since) < U64)
  {
    hide Run, Tracked, Landed, LandedBetween, Wrap, SumOf, StartsRight, EarlierCount, Opening;
    var w, max := WindowAt(bounds, actions, i), bounds.maxSeries;
    RunLog(bounds, actions);
    assert Tiles(bounds, actions, Windows(Run(bounds, actions).log), i);
    var earlier := CounterWindow(bounds, actions, i, name);
    EarlierCountRight(bounds, actions, i, w.from, name);
    BetweenKept(max, Count, actions, w.from, w.to, name);
    var before, since := BetweenSplits(max, Count, actions[..w.to], w.from, name);
    SumConcat(before, since);
    WindowSum(SumOf(before), SumOf(since));
  }

  /**
   A counter that takes one of the registry's own names during a window is reported right exactly
   when the registry's count of that name was still zero, or nothing was added.
   */
  lemma ReservedCounter(bounds: Bounds, actions: seq<Action>, i: nat, name: string)
    requires i < |Windows(Run(bounds, actions).log)|
    requires name in Tracked(bounds.maxSeries, Count, actions[..WindowAt(bounds, actions, i).to])
    requires !StartsRight(bounds, actions, i, WindowAt(bounds, actions, i).from, name)
    ensures var w := WindowAt(bounds, actions, i);
            var r := Run(bounds, actions[..w.from]).registry;
            var own := if name == OVERFLOW then r.overflowed else r.dropped;
            var sum := SumOf(LandedBetween(bounds.maxSeries, Count, actions, w.from, w.to, name));
            && name in w.moment.counters
            && (w.moment.counters[name] == sum <==> sum < U64 && (own == 0 || sum == 0))
  {
    hide Run, Landed, LandedBetween, SumOf;
    var w, max := WindowAt(bounds, actions, i), bounds.maxSeries;
    var earlier := CounterWindow(bounds, actions, i, name);
    RegistryCounts(bounds, actions[..w.from]);
    LandedShort(max, Count, actions[..w.from], name);
    BetweenKept(max, Count, actions, w.from, w.to, name);
    var before, since := BetweenSplits(max, Count, actions[..w.to], w.from, name);
    assert before + since == since;
  }

  // The registry's count of probes without room

  lemma {:induction false} SpilledTogether(max: nat, actions: seq<Action>)
    ensures |Spilled(max, Timing, actions)| + |Spilled(max, Count, actions)| <= |actions|
  {
    if actions != [] {
      SpilledTogether(max, actions[..|actions| - 1]);
    }
  }

  /** The overflow counter counts exactly the probes that found no room. */
  lemma {:induction false} OverflowedCounts(bounds: Bounds, actions: seq<Action>)
    requires |actions| < U64
    ensures Run(bounds, actions).registry.overflowed ==
            |Spilled(bounds.maxSeries, Timing, actions)| + |Spilled(bounds.maxSeries, Count, actions)|
  {
    hide Tracked, Landed, Recorded, Noting;
    if actions != [] {
      var before, a, max := actions[..|actions| - 1], actions[|actions| - 1], bounds.maxSeries;
      OverflowedCounts(bounds, before);
      SpilledTogether(max, actions);
      OverflowedStep(bounds, before, a, Run(bounds, before), actions);
    }
  }

  lemma OverflowedStep(bounds: Bounds, before: seq<Action>, a: Action, s: System, actions: seq<Action>)
    requires |actions| < U64 && actions == before + [a] && s == Run(bounds, before)
    requires s.registry.overflowed ==
      |Spilled(bounds.maxSeries, Timing, before)| + |Spilled(bounds.maxSeries, Count, before)|
    ensures Apply(bounds, s, a).registry.overflowed ==
            |Spilled(bounds.maxSeries, Timing, actions)| + |Spilled(bounds.maxSeries, Count, actions)|
  {
    hide Tracked, Landed, Recorded, Run, Spilled;
    var max := bounds.maxSeries;
    assert actions[..|actions| - 1] == before;
    RegistryTimings(bounds, before);
    RegistryCounts(bounds, before);
    SpilledTogether(max, before);
    assert |s.registry.histograms| == |s.registry.histograms.Keys| && |s.registry.counters| == |s.registry.counters.Keys|;
    if ProbeOf(Timing, a).Probe? {
      ProbeStep(max, Timing, before, a, actions);
    } else {
      NoProbeNoChange(max, Timing, actions);
    }
    if ProbeOf(Count, a).Probe? {
      ProbeStep(max, Count, before, a, actions);
    } else {
      NoProbeNoChange(max, Count, actions);
    }
  }

  // Events

  function Emitted(actions: seq<Action>): seq<Notice>
  {
    if actions == [] then []
    else if actions[|actions| - 1].Emit? then Emitted(actions[..|actions| - 1]) + [actions[|actions| - 1].notice]
    else Emitted(actions[..|actions| - 1])
  }

  /** The last n of a sequence. */
  function Latest(notices: seq<Notice>, n: nat): seq<Notice>
  {
    if |notices| <= n then notices else notices[|notices| - n..]
  }

  function Written(log: seq<Line>): seq<Notice>
  {
    if log == [] then []
    else if log[|log| - 1].EventLine? then Written(log[..|log| - 1]) + [log[|log| - 1].notice]
    else Written(log[..|log| - 1])
  }

  lemma {:induction false} WrittenConcat(log: seq<Line>, more: seq<Line>)
    ensures Written(log + more) == Written(log) + Written(more)
    decreases |more|
  {
    if more == [] {
      assert log + more == log;
    } else {
      WrittenConcat(log, more[..|more| - 1]);
      assert (log + more)[..|log + more| - 1] == log + more[..|more| - 1];
    }
  }

  lemma {:induction false} WrittenEvents(notices: seq<Notice>)
    ensures Written(EventLines(notices)) == notices
  {
    if notices != [] {
      WrittenEvents(notices[..|notices| - 1]);
      assert EventLines(notices)[..|notices| - 1] == EventLines(notices[..|notices| - 1]);
    }
  }

  /** One sequence is the other with some elements left out, the rest in the same order. */
  predicate Sub(a: seq<Notice>, b: seq<Notice>)
    decreases |b|
  {
    if a == [] then true
    else if b == [] then false
    else
      || (a[|a| - 1] == b[|b| - 1] && Sub(a[..|a| - 1], b[..|b| - 1]))
      || Sub(a, b[..|b| - 1])
  }

  lemma {:induction false} SubWithout(a: seq<Notice>, b: seq<Notice>, i: nat)
    requires Sub(a, b) && i < |a|
    ensures Sub(a[..i] + a[i + 1..], b)
    decreases |b|
  {
    var n, m := |a| - 1, |b| - 1;
    var matched := a[n] == b[m] && Sub(a[..n], b[..m]);
    assert matched || Sub(a, b[..m]);
    hide Sub;
    var rest, less, last := a[..i] + a[i + 1..], b[..m], b[m];
    assert b == less + [last];
    if matched && i == n {
      assert rest == a[..n];
      SubLonger(rest, less, last);
    } else if matched {
      SubWithout(a[..n], less, i);
      SubLonger(a[..n][..i] + a[..n][i + 1..], less, last);
      assert rest == a[..n][..i] + a[..n][i + 1..] + [last];
    } else {
      SubWithout(a, less, i);
      SubLonger(rest, less, last);
    }
  }

  lemma SubLonger(a: seq<Notice>, b: seq<Notice>, last: Notice)
    requires Sub(a, b)
    ensures Sub(a, b + [last]) && Sub(a + [last], b + [last])
  {
    assert (b + [last])[..|b|] == b && (a + [last])[..|a|] == a;
  }

  /**
   What waits is the latest of what was emitted since the last drain; what was written and what
   waits are emitted events in their order; and the dropped counter counts the ones left out.
   */
  ghost predicate EventsHold(bounds: Bounds, actions: seq<Action>, s: System)
  {
    && s.now == |actions| && s.drained <= |actions| && |Emitted(actions)| <= |actions|
    && s.registry.events == Latest(Emitted(actions[s.drained..]), bounds.maxEvents)
    && Sub(Written(s.log) + s.registry.events, Emitted(actions))
    && |Emitted(actions)| == |Written(s.log)| + |s.registry.events| + s.registry.dropped
  }

  lemma EmittedStep(actions: seq<Action>, n: nat)
    requires n < |actions|
    ensures var before, a := actions[..|actions| - 1], actions[|actions| - 1];
            Emitted(actions[n..]) == Emitted(before[n..]) + if a.Emit? then [a.notice] else []
  {
    var before := actions[..|actions| - 1];
    assert actions[n..][..|actions| - n - 1] == before[n..];
  }

  lemma {:induction false} EventsExact(bounds: Bounds, actions: seq<Action>)
    requires bounds.maxEvents >= 1 && |actions| < U64
    ensures EventsHold(bounds, actions, Run(bounds, actions))
  {
    if actions != [] {
      var before := actions[..|actions| - 1];
      EventsExact(bounds, before);
      EventStep(bounds, before, Run(bounds, before), actions);
    }
  }

  lemma EventStep(bounds: Bounds, before: seq<Action>, s: System, actions: seq<Action>)
    requires bounds.maxEvents >= 1 && |actions| < U64 && actions != [] && before == actions[..|actions| - 1]
    requires WellSized(s) && EventsHold(bounds, before, s)
    ensures EventsHold(bounds, actions, Apply(bounds, s, actions[|actions| - 1]))
  {
    hide Apply, EventsHold;
    var a := actions[|actions| - 1];
    if a.Emit? {
      EmitStep(bounds, before, s, actions);
    } else if a.Drain? && s.phase.Snapped? {
      DrainStep(bounds, before, s, actions);
    } else {
      QuietStep(bounds, before, s, actions);
    }
  }

  lemma EmitStep(bounds: Bounds, before: seq<Action>, s: System, actions: seq<Action>)
    requires bounds.maxEvents >= 1 && |actions| < U64 && actions != [] && before == actions[..|actions| - 1]
    requires WellSized(s) && EventsHold(bounds, before, s) && actions[|actions| - 1].Emit?
    ensures EventsHold(bounds, actions, Apply(bounds, s, actions[|actions| - 1]))
  {
    hide Written, Sub, Latest, Apply, Enqueued, Noting, Emitted;
    var a := actions[|actions| - 1];
    EmitApart(bounds, s, a);
    EmittedStep(actions, s.drained);
    EmittedLast(actions);
    QueueStep(Emitted(before[s.drained..]), a.notice, bounds.maxEvents);
    OrderStep(Written(s.log), s.registry.events, Emitted(before), a.notice, bounds.maxEvents);
  }

  /** The queue with one more, its oldest gone when it is full. */
  function Enqueued(queue: seq<Notice>, notice: Notice, max: nat): (after: seq<Notice>)
    requires max >= 1
    ensures |after| == if |queue| >= max then |queue| else |queue| + 1
  {
    if |queue| >= max then queue[1..] + [notice] else queue + [notice]
  }

  lemma EmitApart(bounds: Bounds, s: System, a: Action)
    requires WellSized(s) && a.Emit? && bounds.maxEvents >= 1 && s.registry.dropped + 1 < U64
    ensures var after := Apply(bounds, s, a);
            && after.registry.events == Enqueued(s.registry.events, a.notice, bounds.maxEvents)
            && after.registry.dropped == s.registry.dropped + (if |s.registry.events| >= bounds.maxEvents then 1 else 0)
            && after.log == s.log && after.drained == s.drained && after.now == s.now + 1
  {
  }

  lemma EmittedLast(actions: seq<Action>)
    requires actions != [] && actions[|actions| - 1].Emit?
    ensures Emitted(actions) == Emitted(actions[..|actions| - 1]) + [actions[|actions| - 1].notice]
  {
  }

  lemma DrainStep(bounds: Bounds, before: seq<Action>, s: System, actions: seq<Action>)
    requires |actions| < U64 && actions != [] && before == actions[..|actions| - 1]
    requires WellSized(s) && EventsHold(bounds, before, s) && actions[|actions| - 1].Drain? && s.phase.Snapped?
    ensures EventsHold(bounds, actions, Apply(bounds, s, actions[|actions| - 1]))
  {
    hide Written, Sub, MomentOf;
    WrittenConcat(s.log, EventLines(s.registry.events));
    WrittenEvents(s.registry.events);
    assert actions[|actions|..] == [];
    assert Written(s.log) + s.registry.events + [] == Written(s.log) + s.registry.events;
  }

  lemma QuietStep(bounds: Bounds, before: seq<Action>, s: System, actions: seq<Action>)
    requires |actions| < U64 && actions != [] && before == actions[..|actions| - 1]
    requires WellSized(s) && EventsHold(bounds, before, s)
    requires var a := actions[|actions| - 1]; !a.Emit? && !(a.Drain? && s.phase.Snapped?)
    ensures EventsHold(bounds, actions, Apply(bounds, s, actions[|actions| - 1]))
  {
    hide Written, Sub, Apply, Latest;
    EmittedStep(actions, s.drained);
    assert Emitted(before[s.drained..]) + [] == Emitted(before[s.drained..]);
    EventsApart(bounds, s, actions[|actions| - 1]);
  }

  lemma EventsApart(bounds: Bounds, s: System, a: Action)
    requires WellSized(s) && !a.Emit? && !(a.Drain? && s.phase.Snapped?)
    ensures var after := Apply(bounds, s, a);
            && after.registry.events == s.registry.events && after.registry.dropped == s.registry.dropped
            && Written(after.log) == Written(s.log) && after.drained == s.drained && after.now == s.now + 1
  {
    hide Written, MomentOf;
    if a.Write? && s.phase.Drained? {
      var line := WindowLine(s.from, s.phase.at, MomentSince(s.phase.current, s.previous));
      WrittenConcat(s.log, [line]);
      NoEventWritten(line);
      assert Written(s.log) + [] == Written(s.log);
    }
  }

  lemma NoEventWritten(line: Line)
    requires line.WindowLine?
    ensures Written([line]) == []
  {
  }

  lemma OrderStep(written: seq<Notice>, queue: seq<Notice>, emitted: seq<Notice>, notice: Notice, max: nat)
    requires Sub(written + queue, emitted) && max >= 1
    ensures Sub(written + Enqueued(queue, notice, max), emitted + [notice])
  {
    hide Sub;
    var all := written + queue;
    if |queue| >= max {
      SubWithout(all, emitted, |written|);
      var rest := all[..|written|] + all[|written| + 1..];
      SubLonger(rest, emitted, notice);
      assert written + (queue[1..] + [notice]) == rest + [notice];
    } else {
      SubLonger(all, emitted, notice);
      assert written + (queue + [notice]) == all + [notice];
    }
  }

  lemma QueueStep(emitted: seq<Notice>, notice: Notice, max: nat)
    requires max >= 1
    ensures Latest(emitted + [notice], max) == Enqueued(Latest(emitted, max), notice, max)
  {
  }

  // The registry's own counters, while no counter takes their names

  /** The probes without room so far. */
  function WithoutRoom(max: nat, actions: seq<Action>): nat
  {
    |Spilled(max, Timing, actions)| + |Spilled(max, Count, actions)|
  }

  /** The events emitted so far that are neither written nor waiting. */
  ghost function Missing(bounds: Bounds, actions: seq<Action>): int
  {
    var s := Run(bounds, actions);
    |Emitted(actions)| - |Written(s.log)| - |s.registry.events|
  }

  lemma {:induction false} RoomGrows(max: nat, actions: seq<Action>, n: nat)
    requires n <= |actions|
    ensures WithoutRoom(max, actions[..n]) <= WithoutRoom(max, actions)
    decreases |actions|
  {
    hide Tracked;
    if n == |actions| {
      assert actions[..n] == actions;
    } else {
      var before := actions[..|actions| - 1];
      RoomGrows(max, before, n);
      assert before[..n] == actions[..n];
    }
  }

  lemma DroppedStep(bounds: Bounds, s: System, a: Action)
    requires WellSized(s) && s.registry.dropped + 1 < U64
    ensures var after := Apply(bounds, s, a).registry.dropped; s.registry.dropped <= after <= s.registry.dropped + 1
  {
    hide MomentOf, MomentSince;
  }

  lemma {:induction false} DroppedGrows(bounds: Bounds, actions: seq<Action>, n: nat)
    requires n <= |actions| < U64
    ensures Run(bounds, actions[..n]).registry.dropped <= Run(bounds, actions).registry.dropped <= |actions|
    decreases |actions|
  {
    hide Apply;
    if actions == [] {
      assert actions[..n] == actions;
    } else {
      var before := actions[..|actions| - 1];
      DroppedGrows(bounds, before, if n == |actions| then 0 else n);
      DroppedStep(bounds, Run(bounds, before), actions[|actions| - 1]);
      if n == |actions| {
        assert actions[..n] == actions;
      } else {
        assert before[..n] == actions[..n];
      }
    }
  }

  /** What the registry itself counts under one of its names. */
  ghost function OwnCount(bounds: Bounds, actions: seq<Action>, name: string): u64
  {
    var r := Run(bounds, actions).registry;
    if name == OVERFLOW then r.overflowed else r.dropped
  }

  lemma OwnCountReported(bounds: Bounds, actions: seq<Action>, name: string)
    requires (name == OVERFLOW || name == EVENTS_DROPPED) && name !in Tracked(bounds.maxSeries, Count, actions)
    ensures var m := MomentOf(Run(bounds, actions).registry);
            name in m.counters && m.counters[name] == OwnCount(bounds, actions, name)
  {
    hide Run, Tracked, Landed, Snapshots;
    RegistryCounts(bounds, actions);
  }

  lemma NothingOwn(bounds: Bounds, name: string)
    ensures OwnCount(bounds, [], name) == 0
  {
  }

  /** A window reports the difference of the registry's own counts at its two ends. */
  lemma OwnWindow(bounds: Bounds, actions: seq<Action>, i: nat, name: string)
    requires i < |Windows(Run(bounds, actions).log)| && (name == OVERFLOW || name == EVENTS_DROPPED)
    requires name !in Tracked(bounds.maxSeries, Count, actions[..WindowAt(bounds, actions, i).to])
    ensures var w := WindowAt(bounds, actions, i);
            && name in w.moment.counters
            && w.moment.counters[name] ==
               Minus(OwnCount(bounds, actions[..w.to], name), OwnCount(bounds, actions[..w.from], name))
  {
    hide Run, Tracked, MomentOf, MomentSince, OwnCount;
    RunLog(bounds, actions);
    var w := WindowAt(bounds, actions, i);
    assert Tiles(bounds, actions, Windows(Run(bounds, actions).log), i);
    OwnCountReported(bounds, actions[..w.to], name);
    CounterOfMoments(MomentAt(bounds, actions, w.to), Opening(bounds, actions, i == 0, w.from), name);
    if i == 0 {
      assert actions[..0] == [];
      NothingOwn(bounds, name);
    } else {
      TrackedGrows(bounds.maxSeries, Count, actions[..w.to], w.from);
      assert actions[..w.to][..w.from] == actions[..w.from];
      OwnCountReported(bounds, actions[..w.from], name);
    }
  }

  /** The overflow counter of a window is the number of probes in it without room. */
  lemma OverflowCounterWindow(bounds: Bounds, actions: seq<Action>, i: nat)
    requires |actions| < U64 && i < |Windows(Run(bounds, actions).log)|
    requires OVERFLOW !in Tracked(bounds.maxSeries, Count, actions[..WindowAt(bounds, actions, i).to])
    ensures var w, max := WindowAt(bounds, actions, i), bounds.maxSeries;
            && OVERFLOW in w.moment.counters
            && w.moment.counters[OVERFLOW] == WithoutRoom(max, actions[..w.to]) - WithoutRoom(max, actions[..w.from])
  {
    hide Run, Tracked, Spilled;
    var w := WindowAt(bounds, actions, i);
    OwnWindow(bounds, actions, i, OVERFLOW);
    OverflowedCounts(bounds, actions[..w.to]);
    OverflowedCounts(bounds, actions[..w.from]);
    assert actions[..w.to][..w.from] == actions[..w.from];
    RoomGrows(bounds.maxSeries, actions[..w.to], w.from);
  }

  /** The dropped counter of a window is the number of events that went missing in it. */
  lemma DroppedCounterWindow(bounds: Bounds, actions: seq<Action>, i: nat)
    requires bounds.maxEvents >= 1 && |actions| < U64 && i < |Windows(Run(bounds, actions).log)|
    requires EVENTS_DROPPED !in Tracked(bounds.maxSeries, Count, actions[..WindowAt(bounds, actions, i).to])
    ensures var w := WindowAt(bounds, actions, i);
            && EVENTS_DROPPED in w.moment.counters
            && w.moment.counters[EVENTS_DROPPED] == Missing(bounds, actions[..w.to]) - Missing(bounds, actions[..w.from])
  {
    hide Run, Tracked, Sub, Latest, Emitted, Written;
    var w := WindowAt(bounds, actions, i);
    OwnWindow(bounds, actions, i, EVENTS_DROPPED);
    EventsExact(bounds, actions[..w.to]);
    EventsExact(bounds, actions[..w.from]);
    assert actions[..w.to][..w.from] == actions[..w.from];
    DroppedGrows(bounds, actions[..w.to], w.from);
  }

  // What the reserved names hide

  lemma RunStep(bounds: Bounds, actions: seq<Action>, a: Action)
    ensures Run(bounds, actions + [a]) == Apply(bounds, Run(bounds, actions), a)
  {
    assert (actions + [a])[..|actions|] == actions;
  }

  /** A tick on an idle recorder writes one window, up to its moment. */
  lemma OneTick(bounds: Bounds, actions: seq<Action>)
    requires Run(bounds, actions).phase.Idle?
    ensures var s := Run(bounds, actions + [Snap] + [Drain] + [Write]);
            Windows(s.log) == Windows(Run(bounds, actions).log) +
                              [Window(Run(bounds, actions).from, |actions|,
                                      MomentSince(MomentOf(Run(bounds, actions).registry), Run(bounds, actions).previous))]
  {
    hide Run, MomentOf, MomentSince;
    var s := Run(bounds, actions);
    RunLog(bounds, actions);
    RunStep(bounds, actions, Snap);
    RunStep(bounds, actions + [Snap], Drain);
    RunStep(bounds, actions + [Snap] + [Drain], Write);
    var lines := EventLines(s.registry.events);
    var line := WindowLine(s.from, |actions|, MomentSince(MomentOf(s.registry), s.previous));
    WindowsConcat(s.log, lines);
    EventLinesNoWindows(lines);
    WindowsConcat(s.log + lines, [line]);
    assert Windows([line]) == [Window(line.from, line.to, line.window)];
  }

  lemma OnlyRecords(bounds: Bounds, first: Action, second: Action)
    requires first.Record? && second.Record?
    ensures var s := Run(bounds, [first, second]); s.phase.Idle? && s.log == [] && s.from == 0
  {
    hide Recording;
    assert Run(bounds, []) == START;
    RunStep(bounds, [], first);
    RunStep(bounds, [first], second);
    assert [] + [first] == [first] && [first] + [second] == [first, second];
  }

  /** With one series allowed, the second name finds no room. */
  lemma SecondSpills(first: Action, second: Action)
    requires first.Record? && second.Record? && first.name != second.name
    ensures Tracked(1, Timing, [first, second]) == {first.name}
    ensures Spilled(1, Timing, [first, second]) == [second.value]
    ensures Landed(1, Timing, [first, second], first.name) == [first.value]
  {
    assert Tracked(1, Timing, []) == {} && Spilled(1, Timing, []) == [] && Landed(1, Timing, [], first.name) == [];
    ProbeStep(1, Timing, [], first, [first]);
    ProbeStep(1, Timing, [first], second, [first, second]);
  }

  lemma OneNotSeven(s: Snapshot)
    requires Exact(s, [1])
    ensures !Exact(s, [7])
  {
    assert s.buckets[7] == CountIn([1], 7) == 0;
    assert CountIn([7], 7) == 1;
  }

  /** A series named like the overflow series hides it: here the spilled 7 is in no window. */
  lemma OverflowHidden() returns (bounds: Bounds, actions: seq<Action>)
    ensures |Windows(Run(bounds, actions).log)| == 1
    ensures var w := WindowAt(bounds, actions, 0);
            && Spilled(bounds.maxSeries, Timing, actions[..w.to]) == [7]
            && OVERFLOW in w.moment.histograms && !Exact(w.moment.histograms[OVERFLOW], [7])
  {
    hide Run, Tracked, Spilled, Landed, Exact, MomentOf, MomentSince;
    bounds := Bounds(1, 1);
    var first, second := Record(OVERFLOW, 1), Record("b", 7);
    var probes := [first, second];
    OnlyRecords(bounds, first, second);
    SecondSpills(first, second);
    OneTick(bounds, probes);
    actions := probes + [Snap] + [Drain] + [Write];
    assert actions[..2] == probes && actions[..0] == [];
    SeriesWindowExact(bounds, actions, 0, OVERFLOW);
    NothingLanded(1, OVERFLOW);
    OneNotSeven(WindowAt(bounds, actions, 0).moment.histograms[OVERFLOW]);
  }
}
