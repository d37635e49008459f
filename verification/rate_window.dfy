/** The rate window of the display and web variants: pulses accumulate in
    the counter, and a poll whose elapsed time exceeds LOG_PERIOD by more
    than zero closes the window, stores the poll time, turns the drained
    count into counts per minute and resets the counter. */
module RateWindow {
  import opened Pulses
  import opened Ticks

  /** LOG_PERIOD (the window length) and MAX_PERIOD (the normalisation
      period), both in milliseconds. */
  datatype Config = Config(logPeriod: nat, maxPeriod: nat) {
    predicate Valid() {
      logPeriod > 0 && maxPeriod % logPeriod == 0
    }
  }

  /** The constants of the display and web variants. */
  const DISPLAY_CONFIG := Config(10000, 60000)

  /** `multiplier = MAX_PERIOD / LOG_PERIOD`: whole windows per minute, so
      the scaling is exact. */
  function Multiplier(cfg: Config): (m: nat)
    requires cfg.Valid()
    ensures m * cfg.logPeriod == cfg.maxPeriod
  {
    cfg.maxPeriod / cfg.logPeriod
  }

  /** The three globals the loop keeps: `interruptCounter`, `previousMillis`
      and `cpm`. */
  datatype Window = Window(counter: nat, previousMillis: int, cpm: nat)

  const INITIAL := Window(0, 0, 0)

  /** The window check: strictly more than LOG_PERIOD since the last window. */
  predicate Fires(previousMillis: int, currentMillis: int, logPeriod: nat) {
    currentMillis - previousMillis > logPeriod
  }

  /** The interrupt callback: one more pulse, and the window boundary and
      the last cpm are untouched. */
  function AfterPulse(w: Window): (r: Window)
    ensures r.counter == w.counter + 1
    ensures r.previousMillis == w.previousMillis && r.cpm == w.cpm
  {
    w.(counter := w.counter + 1)
  }

  /** The window check with elapsed time `currentMillis`. A poll that fires
      takes `currentMillis` as the new boundary, empties the counter and
      reports the count scaled from LOG_PERIOD to MAX_PERIOD; one that does
      not fire changes nothing. */
  function AfterPoll(w: Window, currentMillis: int, cfg: Config): (r: Window)
    requires cfg.Valid()
    ensures Fires(w.previousMillis, currentMillis, cfg.logPeriod) ==>
              && r.counter == 0 && r.previousMillis == currentMillis
              && r.cpm * cfg.logPeriod == w.counter * cfg.maxPeriod
    ensures !Fires(w.previousMillis, currentMillis, cfg.logPeriod) ==> r == w
  {
    if Fires(w.previousMillis, currentMillis, cfg.logPeriod) then
      MulAssoc(w.counter, Multiplier(cfg), cfg.logPeriod);
      Window(0, currentMillis, w.counter * Multiplier(cfg))
    else
      w
  }

  /** What happens between two observations: an interrupt, or one pass of
      the main loop with the elapsed time it read. */
  datatype Event = PulseEdge | PollAt(currentMillis: int)

  function Step(w: Window, e: Event, cfg: Config): Window
    requires cfg.Valid()
  {
    match e
    case PulseEdge => AfterPulse(w)
    case PollAt(t) => AfterPoll(w, t, cfg)
  }

  /** The state after the events, applied in order. Boundaries never move
      back, and the counter holds at most the pulses seen. */
  function Run(w: Window, events: seq<Event>, cfg: Config): (r: Window)
    requires cfg.Valid()
    ensures r.previousMillis >= w.previousMillis
    ensures r.counter <= w.counter + PulseCount(events)
  {
    if events == [] then w
    else Step(Run(w, events[..|events| - 1], cfg), events[|events| - 1], cfg)
  }

  function PulseCount(events: seq<Event>): nat {
    if events == [] then 0
    else PulseCount(events[..|events| - 1]) + (if events[|events| - 1].PulseEdge? then 1 else 0)
  }

  /** The counts drained by the polls that fired, in order. */
  function Drained(w: Window, events: seq<Event>, cfg: Config): seq<nat>
    requires cfg.Valid()
  {
    if events == [] then []
    else
      var before := Run(w, events[..|events| - 1], cfg);
      var earlier := Drained(w, events[..|events| - 1], cfg);
      match events[|events| - 1]
      case PulseEdge => earlier
      case PollAt(t) =>
        if Fires(before.previousMillis, t, cfg.logPeriod) then earlier + [before.counter] else earlier
  }

  function PulseTrain(n: nat): (events: seq<Event>)
    ensures |events| == n && forall i | 0 <= i < n :: events[i] == PulseEdge
  {
    if n == 0 then [] else PulseTrain(n - 1) + [PulseEdge]
  }

  // ---------------------------------------------------------------------
  // Properties of one poll

  /** With LOG_PERIOD = 10000 a poll exactly 10000 ms after the last window
      leaves everything unchanged, and one 10001 ms after it fires. */
  lemma WindowBoundary(w: Window)
    ensures AfterPoll(w, w.previousMillis + 10000, DISPLAY_CONFIG) == w
    ensures AfterPoll(w, w.previousMillis + 10001, DISPLAY_CONFIG)
         == Window(0, w.previousMillis + 10001, 6 * w.counter)
    ensures w.counter == 0 ==> AfterPoll(w, w.previousMillis + 10001, DISPLAY_CONFIG).cpm == 0
  {
  }

  /** A late poll scales by the nominal window, not by the time that really
      passed: every firing poll computes the same cpm from the same count. */
  lemma LatePollScalesNominal(w: Window, t1: int, t2: int, cfg: Config)
    requires cfg.Valid()
    requires Fires(w.previousMillis, t1, cfg.logPeriod) && Fires(w.previousMillis, t2, cfg.logPeriod)
    ensures AfterPoll(w, t1, cfg).cpm == AfterPoll(w, t2, cfg).cpm
    ensures AfterPoll(w, t1, cfg).cpm * cfg.logPeriod == w.counter * cfg.maxPeriod
  {
    var m := Multiplier(cfg);
    calc {
      AfterPoll(w, t1, cfg).cpm * cfg.logPeriod;
      (w.counter * m) * cfg.logPeriod;
      { MulAssoc(w.counter, m, cfg.logPeriod); }
      w.counter * (m * cfg.logPeriod);
      w.counter * cfg.maxPeriod;
    }
  }

  lemma MulAssoc(a: int, b: int, c: int)
    ensures (a * b) * c == a * (b * c)
  {
  }

  // ---------------------------------------------------------------------
  // Properties of a run

  /** No pulse is lost or counted twice: the pulses seen equal the pulses
      drained by firing polls plus those still pending. */
  lemma {:induction false} PulsesConserved(w: Window, events: seq<Event>, cfg: Config)
    requires cfg.Valid()
    ensures w.counter + PulseCount(events) == Sum(Drained(w, events, cfg)) + Run(w, events, cfg).counter
  {
    if events != [] {
      var prefix := events[..|events| - 1];
      PulsesConserved(w, prefix, cfg);
      var before := Run(w, prefix, cfg);
      match events[|events| - 1]
      case PulseEdge =>
      case PollAt(t) =>
        if Fires(before.previousMillis, t, cfg.logPeriod) {
          SumAppend(Drained(w, prefix, cfg), before.counter);
        }
    }
  }

  /** The cpm served is the last one computed: the starting value while no
      window has fired, afterwards the last drained count times the
      multiplier. */
  lemma {:induction false} CpmIsLastDrain(w: Window, events: seq<Event>, cfg: Config)
    requires cfg.Valid()
    ensures var d := Drained(w, events, cfg);
            Run(w, events, cfg).cpm == if d == [] then w.cpm else d[|d| - 1] * Multiplier(cfg)
  {
    if events != [] {
      CpmIsLastDrain(w, events[..|events| - 1], cfg);
    }
  }

  /** Window boundaries only move forward, and once a window has fired
      the boundary lies more than LOG_PERIOD past the starting one. */
  lemma {:induction false} BoundariesAdvance(w: Window, events: seq<Event>, cfg: Config)
    requires cfg.Valid()
    ensures Run(w, events, cfg).previousMillis >= w.previousMillis
    ensures Drained(w, events, cfg) != [] ==> Run(w, events, cfg).previousMillis > w.previousMillis + cfg.logPeriod
  {
    if events != [] {
      BoundariesAdvance(w, events[..|events| - 1], cfg);
    }
  }

  /** Pulses alone only raise the counter. */
  lemma {:induction false} RunPulses(w: Window, n: nat, cfg: Config)
    requires cfg.Valid()
    ensures Run(w, PulseTrain(n), cfg) == w.(counter := w.counter + n)
  {
    if n > 0 {
      RunPulses(w, n - 1, cfg);
      assert PulseTrain(n)[..n - 1] == PulseTrain(n - 1);
    }
  }

  /** A window with `n` pulses then one firing poll reports n times the
      multiplier and starts the next window from zero. */
  lemma PulsesThenPoll(w: Window, n: nat, t: int, cfg: Config)
    requires cfg.Valid()
    requires Fires(w.previousMillis, t, cfg.logPeriod)
    ensures Run(w, PulseTrain(n) + [PollAt(t)], cfg) == Window(0, t, (w.counter + n) * Multiplier(cfg))
  {
    var events := PulseTrain(n) + [PollAt(t)];
    assert events[..|events| - 1] == PulseTrain(n);
    RunPulses(w, n, cfg);
  }

  /** Twelve pulses in a ten-second window give 72 counts per minute. */
  lemma TwelvePulsesReport72()
    ensures Run(INITIAL, PulseTrain(12) + [PollAt(10001)], DISPLAY_CONFIG).cpm == 72
  {
    PulsesThenPoll(INITIAL, 12, 10001, DISPLAY_CONFIG);
  }

  // ---------------------------------------------------------------------
  // The elapsed time as the scripts compute it

  /** Every time the scripts compare is `ticks_diff(ticks_ms(), startMillis)`,
      which lies below half a tick period. */
  predicate StartRelative(events: seq<Event>) {
    forall i | 0 <= i < |events| :: events[i].PollAt? ==> events[i].currentMillis < TICKS_HALF
  }

  /** Once a window has closed within LOG_PERIOD + 1 ms of half a tick
      period after start (about 6.2 days), no later start-relative poll
      can fire: cpm stays frozen and the counter only grows. */
  lemma {:induction false} StartRelativeWindowFreezes(w: Window, events: seq<Event>, cfg: Config)
    requires cfg.Valid()
    requires w.previousMillis >= TICKS_HALF - 1 - cfg.logPeriod
    requires StartRelative(events)
    ensures Drained(w, events, cfg) == []
    ensures Run(w, events, cfg) == w.(counter := w.counter + PulseCount(events))
  {
    if events != [] {
      var prefix := events[..|events| - 1];
      assert StartRelative(prefix) by {
        forall i | 0 <= i < |prefix| && prefix[i].PollAt? ensures prefix[i].currentMillis < TICKS_HALF {
          assert prefix[i] == events[i];
        }
      }
      StartRelativeWindowFreezes(w, prefix, cfg);
      assert events[|events| - 1].PollAt? ==> events[|events| - 1].currentMillis < TICKS_HALF;
    }
  }

  /** The frozen state is reached: a window closes at tick 2^29 - 1 after
      start, and a poll 20000 ms later does not fire although the tick
      difference since that window is 20000. */
  lemma StartRelativeMissesWindow()
    ensures var start := 0;
            var closing := TICKS_HALF - 1;
            var later := closing + 20000;
            var w := AfterPoll(INITIAL, TicksDiff(closing, start), DISPLAY_CONFIG);
            w.previousMillis == TICKS_HALF - 1
            && TicksDiff(later, closing) == 20000
            && AfterPoll(w, TicksDiff(later, start), DISPLAY_CONFIG) == w
  {
    TicksDiffRecoversElapsed(0, TICKS_HALF - 1);
    TicksDiffRecoversElapsed(TICKS_HALF - 1, 20000);
  }

  /** With the elapsed time taken from an uptime clock that adds up tick
      differences between readings, a poll fires exactly when more than
      LOG_PERIOD has really passed since the last window, at any uptime. */
  lemma UptimePollFiresOnElapsed(w: Window, millis: int, lastTicks: int, elapsed: int, cfg: Config)
    requires cfg.Valid() && IsTicks(lastTicks) && 0 <= elapsed < TICKS_HALF
    ensures var now := millis + TicksDiff((lastTicks + elapsed) % TICKS_PERIOD, lastTicks);
            Fires(w.previousMillis, now, cfg.logPeriod) <==> (millis - w.previousMillis) + elapsed > cfg.logPeriod
  {
    TicksDiffRecoversElapsed(lastTicks, elapsed);
  }

  // ---------------------------------------------------------------------
  // The loop state, updated in place

  class Estimator {
    const cfg: Config
    const pulses: PulseCounter
    var previousMillis: int
    var cpm: nat

    ghost predicate Valid()
      reads this, pulses
    {
      cfg.Valid() && pulses.Valid()
    }

    function State(): Window
      reads this, pulses
    {
      Window(pulses.count, previousMillis, cpm)
    }

    constructor (cfg: Config)
      requires cfg.Valid()
      ensures Valid() && this.cfg == cfg && fresh(pulses)
      ensures State() == INITIAL && pulses.total == 0 && pulses.drains == []
    {
      this.cfg := cfg;
      pulses := new PulseCounter();
      previousMillis := 0;
      cpm := 0;
    }

    /** One pass of the window check with the elapsed time `currentMillis`. */
    method Poll(currentMillis: int) returns (fired: bool)
      requires Valid()
      modifies this, pulses
      ensures Valid()
      ensures fired == Fires(old(previousMillis), currentMillis, cfg.logPeriod)
      ensures State() == AfterPoll(old(State()), currentMillis, cfg)
      ensures pulses.total == old(pulses.total)
      ensures pulses.drains == if fired then old(pulses.drains) + [old(pulses.count)] else old(pulses.drains)
    {
      fired := currentMillis - previousMillis > cfg.logPeriod;
      if fired {
        previousMillis := currentMillis;
        var n := pulses.Drain();
        cpm := n * Multiplier(cfg);
      }
    }

    /** One pass of the display loop as written: the elapsed time is the
        tick difference from the start reading `startTicks`. */
    method PollSinceStart(startTicks: int, nowTicks: int) returns (fired: bool)
      requires Valid()
      modifies this, pulses
      ensures Valid()
      ensures fired == Fires(old(previousMillis), TicksDiff(nowTicks, startTicks), cfg.logPeriod)
      ensures State() == AfterPoll(old(State()), TicksDiff(nowTicks, startTicks), cfg)
      ensures pulses.total == old(pulses.total)
      ensures pulses.drains == if fired then old(pulses.drains) + [old(pulses.count)] else old(pulses.drains)
    {
      var currentMillis := TicksDiff(nowTicks, startTicks);
      fired := Poll(currentMillis);
    }

    /** The corrected pass: read the uptime clock, then check the window.
        While the clock agrees with the real time and readings are less
        than 2^29 ms apart, the window fires exactly when more than
        LOG_PERIOD has really passed since the last one. */
    method PollClock(clock: UptimeClock, nowTicks: int, ghost elapsed: nat) returns (fired: bool)
      requires Valid() && clock.Valid() && nowTicks == (clock.lastTicks + elapsed) % TICKS_PERIOD
      modifies this, pulses, clock
      ensures Valid() && clock.Valid() && clock.lastTicks == nowTicks
      ensures clock.millis == old(clock.millis) + TicksDiff(nowTicks, old(clock.lastTicks))
      ensures clock.realMillis == old(clock.realMillis) + elapsed
      ensures old(clock.millis) == old(clock.realMillis) && elapsed < TICKS_HALF ==>
                clock.millis == clock.realMillis
                && (fired <==> clock.realMillis - old(previousMillis) > cfg.logPeriod)
      ensures fired == Fires(old(previousMillis), clock.millis, cfg.logPeriod)
      ensures State() == AfterPoll(old(State()), clock.millis, cfg)
      ensures pulses.total == old(pulses.total)
      ensures pulses.drains == if fired then old(pulses.drains) + [old(pulses.count)] else old(pulses.drains)
    {
      var currentMillis := clock.Read(nowTicks, elapsed);
      fired := Poll(currentMillis);
    }

    /** Interrupts and loop passes in the order they happened. */
    method Replay(events: seq<Event>)
      requires Valid()
      modifies this, pulses
      ensures Valid()
      ensures State() == Run(old(State()), events, cfg)
      ensures pulses.total == old(pulses.total) + PulseCount(events)
      ensures pulses.drains == old(pulses.drains) + Drained(old(State()), events, cfg)
    {
      ghost var start := State();
      for i := 0 to |events|
        invariant Valid()
        invariant State() == Run(start, events[..i], cfg)
        invariant pulses.total == old(pulses.total) + PulseCount(events[..i])
        invariant pulses.drains == old(pulses.drains) + Drained(start, events[..i], cfg)
      {
        assert events[..i + 1][..i] == events[..i];
        match events[i]
        case PulseEdge =>
          pulses.Pulse();
        case PollAt(t) =>
          var fired := Poll(t);
      }
      assert events[..|events|] == events;
    }
  }
}
