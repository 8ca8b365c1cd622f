/**
 The registry of named series and its recorder, as values: what each probe and each part of a
 tick does to them.
 */
module ObservationRegistry {
  import opened ObservationHistogram
  import opened Words

  const OVERFLOW := "observation.overflow"
  const EVENTS_DROPPED := "observation.events_dropped"

  /** A one-off fact with its own time. */
  datatype Notice = Notice(unixMs: u64, name: string, numbers: map<string, u64>, texts: map<string, string>)

  datatype Bounds = Bounds(maxSeries: nat, maxEvents: nat)

  datatype Registry = Registry(
    histograms: map<string, Histogram>,
    counters: map<string, u64>,
    events: seq<Notice>,
    overflowHistogram: Histogram,
    overflowCounter: u64,
    overflowed: u64,
    dropped: u64)

  const NEW_REGISTRY := Registry(map[], map[], [], EMPTY, 0, 0, 0)

  predicate AllSized(histograms: map<string, Histogram>)
  {
    forall name | name in histograms :: Sized(histograms[name].buckets)
  }

  predicate Sound(r: Registry) { AllSized(r.histograms) && Sized(r.overflowHistogram.buckets) }

  function Recording(bounds: Bounds, r: Registry, name: string, value: u64): (after: Registry)
    requires Sound(r)
    ensures Sound(after)
  {
    if name in r.histograms then r.(histograms := r.histograms[name := Recorded(r.histograms[name], value)])
    else if |r.histograms| >= bounds.maxSeries then
      r.(overflowHistogram := Recorded(r.overflowHistogram, value), overflowed := Add64(r.overflowed, 1))
    else r.(histograms := r.histograms[name := Recorded(EMPTY, value)])
  }

  function Adding(bounds: Bounds, r: Registry, name: string, amount: u64): Registry
  {
    if name in r.counters then r.(counters := r.counters[name := Add64(r.counters[name], amount)])
    else if |r.counters| >= bounds.maxSeries then
      r.(overflowCounter := Add64(r.overflowCounter, amount), overflowed := Add64(r.overflowed, 1))
    else r.(counters := r.counters[name := amount])
  }

  function Noting(bounds: Bounds, r: Registry, notice: Notice): Registry
  {
    if r.events != [] && |r.events| >= bounds.maxEvents then
      r.(events := r.events[1..] + [notice], dropped := Add64(r.dropped, 1))
    else r.(events := r.events + [notice])
  }

  // Snapshots of a registry

  datatype Moment = Moment(histograms: map<string, Snapshot>, counters: map<string, u64>)

  const NO_MOMENT := Moment(map[], map[])

  /** map::emplace: an existing key stays. */
  function Emplace<T>(m: map<string, T>, key: string, value: T): map<string, T>
  {
    if key in m then m else m[key := value]
  }

  function Snapshots(histograms: map<string, Histogram>): map<string, Snapshot>
  {
    map name | name in histograms :: SnapshotOf(histograms[name])
  }

  function MomentOf(r: Registry): Moment
  {
    Moment(Emplace(Snapshots(r.histograms), OVERFLOW, SnapshotOf(r.overflowHistogram)),
           Emplace(Emplace(r.counters, OVERFLOW, r.overflowed), EVENTS_DROPPED, r.dropped))
  }

  /** The names under which the registry reports its own counts, unless a series has one of them. */
  lemma OwnNames(r: Registry)
    ensures var m := MomentOf(r);
            && ("observation.overflow" !in r.counters ==>
                  "observation.overflow" in m.counters && m.counters["observation.overflow"] == r.overflowed)
            && ("observation.events_dropped" !in r.counters ==>
                  "observation.events_dropped" in m.counters && m.counters["observation.events_dropped"] == r.dropped)
            && ("observation.overflow" !in r.histograms ==>
                  && "observation.overflow" in m.histograms
                  && m.histograms["observation.overflow"] == SnapshotOf(r.overflowHistogram))
  {
    assert OVERFLOW != EVENTS_DROPPED by {
      assert |OVERFLOW| != |EVENTS_DROPPED|;
    }
    assert Snapshots(r.histograms).Keys == r.histograms.Keys;
    hide Snapshots;
  }

  predicate MomentSized(m: Moment) { forall name | name in m.histograms :: Sized(m.histograms[name].buckets) }

  /** What an earlier moment has of a series; a series it lacks counts from zero. */
  function Earlier(m: Moment, name: string): Snapshot
  {
    if name in m.histograms then m.histograms[name] else NOTHING
  }

  function EarlierCount(m: Moment, name: string): u64
  {
    if name in m.counters then m.counters[name] else 0
  }

  function HistogramsSince(current: Moment, earlier: Moment): map<string, Snapshot>
    requires MomentSized(current) && MomentSized(earlier)
  {
    map name | name in current.histograms :: Since(current.histograms[name], Earlier(earlier, name))
  }

  function CountersSince(current: Moment, earlier: Moment): map<string, u64>
  {
    map name | name in current.counters :: Minus(current.counters[name], EarlierCount(earlier, name))
  }

  function MomentSince(current: Moment, earlier: Moment): Moment
    requires MomentSized(current) && MomentSized(earlier)
  {
    Moment(HistogramsSince(current, earlier), CountersSince(current, earlier))
  }

  lemma MomentOfSized(r: Registry)
    requires Sound(r)
    ensures MomentSized(MomentOf(r))
  {
  }

  // As the source runs them

  class Observations {
    const bounds: Bounds
    var histograms: map<string, Histogram>
    var counters: map<string, u64>
    var events: seq<Notice>
    var overflowHistogram: Histogram
    var overflowCounter: u64
    var overflowed: u64
    var dropped: u64

    function State(): Registry
      reads this
    {
      Registry(histograms, counters, events, overflowHistogram, overflowCounter, overflowed, dropped)
    }

    constructor (bounds: Bounds)
      ensures this.bounds == bounds && State() == NEW_REGISTRY
    {
      this.bounds := bounds;
      histograms, counters, events := map[], map[], [];
      overflowHistogram, overflowCounter, overflowed, dropped := EMPTY, 0, 0, 0;
    }

    method Record(name: string, value: u64)
      requires Sound(State())
      modifies this
      ensures State() == Recording(bounds, old(State()), name, value)
    {
      if name in histograms {
        histograms := histograms[name := Recorded(histograms[name], value)];
      } else if |histograms| >= bounds.maxSeries {
        overflowed := Add64(overflowed, 1);
        overflowHistogram := Recorded(overflowHistogram, value);
      } else {
        histograms := histograms[name := EMPTY];
        histograms := histograms[name := Recorded(histograms[name], value)];
        assert histograms == old(histograms)[name := Recorded(EMPTY, value)];
      }
    }

    method Add(name: string, amount: u64)
      modifies this
      ensures State() == Adding(bounds, old(State()), name, amount)
    {
      if name in counters {
        counters := counters[name := Add64(counters[name], amount)];
      } else if |counters| >= bounds.maxSeries {
        overflowed := Add64(overflowed, 1);
        overflowCounter := Add64(overflowCounter, amount);
      } else {
        counters := counters[name := 0];
        counters := counters[name := Add64(counters[name], amount)];
        assert counters == old(counters)[name := amount];
      }
    }

    method Event(notice: Notice)
      requires bounds.maxEvents >= 1 || events != []
      modifies this
      ensures State() == Noting(bounds, old(State()), notice)
    {
      if |events| >= bounds.maxEvents {
        events := events[1..];
        dropped := Add64(dropped, 1);
      }
      events := events + [notice];
    }

    method DrainEvents() returns (drained: seq<Notice>)
      modifies this
      ensures drained == old(events) && State() == old(State()).(events := [])
    {
      drained := events;
      events := [];
    }

    method TakeMoment() returns (m: Moment)
      ensures m == MomentOf(State())
    {
      var taken: map<string, Snapshot> := map[];
      var rest := histograms.Keys;
      while rest != {}
        invariant rest <= histograms.Keys && taken.Keys == histograms.Keys - rest
        invariant forall name | name in taken :: taken[name] == SnapshotOf(histograms[name])
        decreases |rest|
      {
        var name :| name in rest;
        taken := taken[name := SnapshotOf(histograms[name])];
        rest := rest - {name};
      }
      assert taken == Snapshots(histograms);
      if OVERFLOW !in taken {
        taken := taken[OVERFLOW := SnapshotOf(overflowHistogram)];
      }
      var counted: map<string, u64> := counters;
      if OVERFLOW !in counted {
        counted := counted[OVERFLOW := overflowed];
      }
      if EVENTS_DROPPED !in counted {
        counted := counted[EVENTS_DROPPED := dropped];
      }
      m := Moment(taken, counted);
    }
  }

  method HistogramDifferences(current: Moment, earlier: Moment) returns (histograms: map<string, Snapshot>)
    requires MomentSized(current) && MomentSized(earlier)
    ensures histograms == HistogramsSince(current, earlier)
  {
    hide Since, Earlier;
    histograms := map[];
    var rest := current.histograms.Keys;
    while rest != {}
      invariant rest <= current.histograms.Keys && histograms.Keys == current.histograms.Keys - rest
      invariant forall name | name in histograms :: histograms[name] == HistogramsSince(current, earlier)[name]
      decreases |rest|
    {
      var name :| name in rest;
      assert Sized(Earlier(earlier, name).buckets) by { EarlierSized(earlier, name); }
      var d := Difference(current.histograms[name], Earlier(earlier, name));
      histograms := histograms[name := d];
      rest := rest - {name};
    }
  }

  lemma EarlierSized(m: Moment, name: string)
    requires MomentSized(m)
    ensures Sized(Earlier(m, name).buckets)
  {
  }

  method CounterDifferences(current: Moment, earlier: Moment) returns (counters: map<string, u64>)
    ensures counters == CountersSince(current, earlier)
  {
    counters := map[];
    var rest := current.counters.Keys;
    while rest != {}
      invariant rest <= current.counters.Keys && counters.Keys == current.counters.Keys - rest
      invariant forall name | name in counters :: counters[name] == CountersSince(current, earlier)[name]
      decreases |rest|
    {
      var name :| name in rest;
      counters := counters[name := Minus(current.counters[name], EarlierCount(earlier, name))];
      rest := rest - {name};
    }
  }

  /** What a tick writes to the log. */
  datatype Line = EventLine(notice: Notice) | WindowLine(from: nat, to: nat, window: Moment)

  function EventLines(notices: seq<Notice>): seq<Line>
  {
    seq(|notices|, i requires 0 <= i < |notices| => EventLine(notices[i]))
  }

  /** The recorder; `from` is the time its last window ended. */
  class ObservationRecorder {
    const observations: Observations
    var previous: Moment
    var from: nat
    var log: seq<Line>

    constructor (observations: Observations, start: nat)
      ensures this.observations == observations && previous == NO_MOMENT && from == start && log == []
    {
      this.observations, previous, from, log := observations, NO_MOMENT, start, [];
    }

    method Tick(now: nat)
      requires MomentSized(previous) && Sound(observations.State())
      modifies this, observations
      ensures previous == MomentOf(old(observations.State())) && from == now
      ensures observations.State() == old(observations.State()).(events := [])
      ensures log == old(log) + EventLines(old(observations.events)) +
                     [WindowLine(old(from), now, MomentSince(previous, old(previous)))]
    {
      MomentOfSized(observations.State());
      var current := observations.TakeMoment();
      var drained := observations.DrainEvents();
      for i := 0 to |drained|
        invariant log == old(log) + EventLines(drained)[..i]
        invariant observations.State() == old(observations.State()).(events := [])
        invariant previous == old(previous) && from == old(from)
      {
        log := log + [EventLine(drained[i])];
      }
      assert EventLines(drained)[..|drained|] == EventLines(drained);
      var histograms := HistogramDifferences(current, previous);
      var counters := CounterDifferences(current, previous);
      log := log + [WindowLine(from, now, Moment(histograms, counters))];
      previous := current;
      from := now;
    }
  }
}
