/** The monitor's process-wide state (the globals of the firmware) and what the main loop,
    the interrupt handler and the two history endpoints do with it. */
module Monitor {
  import opened Base
  import opened Store
  import opened Display
  import opened Params

  /** Everything one pass of the main loop reads from outside: the wall clock, the
      sensor's answers and the millisecond counter. */
  datatype CycleInput = CycleInput(
    now: int,             // time(nullptr), seconds
    intSrc: uint8,        // interrupt-source register, read only when the flag was set
    irqDistance: uint8,   // distance read on the interrupt path
    irqEnergy: uint32,    // energy read on the interrupt path
    msCheck: uint32,      // millis() in the poll test
    msStamp: uint32,      // millis() stored as the time of the poll
    pollDistance: uint8,  // distance read on the poll path
    pollEnergy: uint32)   // energy read on the poll path

  /** A snapshot of the globals; `irqSeen` is `AS3935_irq`. */
  datatype MonitorState = MonitorState(
    history: History,
    irqFlag: bool,
    tLastPoll: uint32,
    lastDistance: uint8,
    lastEnergy: uint32,
    lastEventTs: int,
    lastEvent: uint8,
    started: bool,
    irqSeen: bool)

  /** The store stays within its cap. */
  ghost predicate Consistent(s: MonitorState) {
    |s.history| <= HISTORY_MAX
  }

  /** The globals after start-up; `started` is whether the sensor answered. */
  function Boot(started: bool): (s: MonitorState)
    ensures Consistent(s) && s.history == [] && s.lastEventTs == 0
  {
    MonitorState([], false, 0, OUT_OF_RANGE_KM, 0, 0, 0, started, false)
  }

  const POLL_INTERVAL_MS: int := 10000

  /** `millis() - tLastPoll` computed in `uint32_t`, so it stays right across the
      counter's wrap-around. */
  function Elapsed(ms: uint32, since: uint32): (d: uint32)
    ensures since <= ms ==> d as int == ms as int - since as int
    ensures ms < since ==> d as int == ms as int + 0x1_0000_0000 - since as int
  {
    ((ms as int - since as int) % 0x1_0000_0000) as uint32
  }

  /** The record the interrupt path stores for a nonzero code; `irq` is `AS3935_irq`. */
  function IrqRecord(input: CycleInput, irq: bool): (e: LightningEvent)
    // stamped with this pass's wall clock, carrying the interrupt's reading and code
    ensures e.ts == input.now && e.distance == input.irqDistance && e.energy == input.irqEnergy
    ensures e.event as int == input.intSrc as int && e.irq == irq
  {
    LightningEvent(input.now, input.irqDistance, input.irqEnergy, input.intSrc as uint32, irq)
  }

  /** The confirmation record the poll path stores for a pending code. */
  function PollRecord(input: CycleInput, code: uint8, irq: bool): (e: LightningEvent)
    // stamped with this pass's wall clock, carrying the poll's reading and the pending code
    ensures e.ts == input.now && e.distance == input.pollDistance && e.energy == input.pollEnergy
    ensures e.event as int == code as int && e.irq == irq
  {
    LightningEvent(input.now, input.pollDistance, input.pollEnergy, code as uint32, irq)
  }

  /** The interrupt path, taken when the flag was seen set: clear the flag, keep the code,
      and for a nonzero code record one event stamped now. */
  function InterruptPath(s: MonitorState, input: CycleInput): (r: MonitorState)
    // the flag is consumed and the code is kept for the poll
    ensures !r.irqFlag && r.lastEvent == input.intSrc
    // the poll clock and the sensor status are not touched
    ensures r.tLastPoll == s.tLastPoll && r.started == s.started && r.irqSeen == s.irqSeen
  {
    var s1 := s.(irqFlag := false, lastEvent := input.intSrc);
    if input.intSrc != 0 then
      s1.(lastDistance := input.irqDistance, lastEnergy := input.irqEnergy, lastEventTs := input.now,
          history := Appended(s1.history, IrqRecord(input, s1.irqSeen), HISTORY_MAX))
    else
      s1
  }

  /** Whether the 10-second poll re-samples the sensor in this pass. */
  predicate PollFires(s: MonitorState, input: CycleInput) {
    Elapsed(input.msCheck, s.tLastPoll) as int > POLL_INTERVAL_MS && s.lastEvent > 0
  }

  /** The poll path: after 10 s, if an event code is still pending, re-sample, record a
      confirmation event stamped now and clear the code. */
  function PollPath(s: MonitorState, input: CycleInput): (r: MonitorState)
    // a poll that is not due, or finds no pending code, changes nothing
    ensures !PollFires(s, input) ==> r == s
    // a poll that fires clears the code, restarts the interval and adds one record
    ensures PollFires(s, input) ==> r.lastEvent == 0 && r.tLastPoll == input.msStamp && |r.history| > 0
    // the flags and the time of the last event are never touched by the poll
    ensures r.irqFlag == s.irqFlag && r.irqSeen == s.irqSeen && r.lastEventTs == s.lastEventTs
  {
    if PollFires(s, input) then
      s.(tLastPoll := input.msStamp, lastDistance := input.pollDistance, lastEnergy := input.pollEnergy,
         history := Appended(s.history, PollRecord(input, s.lastEvent, s.irqSeen), HISTORY_MAX),
         lastEvent := 0)
    else
      s
  }

  /** One pass of `loop()`: trim to 24 hours, note whether the interrupt fired, then the
      interrupt path and the poll path. */
  function Cycle(s: MonitorState, input: CycleInput): (r: MonitorState)
    // every pass consumes the flag and records in `AS3935_irq` whether it was set
    ensures !r.irqFlag && r.irqSeen == s.irqFlag && r.started == s.started
  {
    var trimmed := s.(history := Trimmed(s.history, input.now - RETENTION_SECONDS));
    var seen := trimmed.(irqSeen := trimmed.irqFlag);
    var afterIrq := if seen.irqFlag then InterruptPath(seen, input) else seen;
    PollPath(afterIrq, input)
  }

  // ---------------------------------------------------------------------------
  // What one cycle does
  // ---------------------------------------------------------------------------

  /** Every cycle keeps the store within its cap. */
  lemma CycleKeepsConsistent(s: MonitorState, input: CycleInput)
    requires Consistent(s)
    ensures Consistent(Cycle(s, input))
  {
    TrimRemovesStalePrefix(s.history, input.now - RETENTION_SECONDS);
    var seen := s.(history := Trimmed(s.history, input.now - RETENTION_SECONDS), irqSeen := s.irqFlag);
    var afterIrq := if seen.irqFlag then InterruptPath(seen, input) else seen;
    if seen.irqFlag && input.intSrc != 0 {
      AppendWithinCap(seen.history, IrqRecord(input, true), HISTORY_MAX);
    }
    assert |afterIrq.history| <= HISTORY_MAX;
    if PollFires(afterIrq, input) {
      AppendWithinCap(afterIrq.history, PollRecord(input, afterIrq.lastEvent, afterIrq.irqSeen), HISTORY_MAX);
    }
    assert Cycle(s, input) == PollPath(afterIrq, input);
  }

  /** The interrupt flag is consumed by every cycle, and `AS3935_irq` records whether it
      was set. */
  lemma CycleConsumesFlag(s: MonitorState, input: CycleInput)
    ensures Cycle(s, input).irqFlag == false
    ensures Cycle(s, input).irqSeen == s.irqFlag
    ensures Cycle(s, input).started == s.started
  {
  }

  /** No interrupt and no pending code: the cycle only trims. */
  lemma QuietCycleOnlyTrims(s: MonitorState, input: CycleInput)
    requires !s.irqFlag && s.lastEvent == 0
    ensures Cycle(s, input) == s.(history := Trimmed(s.history, input.now - RETENTION_SECONDS), irqSeen := false)
  {
  }

  /** An interrupt whose source code is zero records nothing, leaves the reported reading
      alone and leaves no code pending. */
  lemma ZeroCodeRecordsNothing(s: MonitorState, input: CycleInput)
    requires s.irqFlag && input.intSrc == 0
    ensures var r := Cycle(s, input);
      && r.history == Trimmed(s.history, input.now - RETENTION_SECONDS)
      && r.lastEvent == 0 && r.tLastPoll == s.tLastPoll
      && r.lastDistance == s.lastDistance && r.lastEnergy == s.lastEnergy && r.lastEventTs == s.lastEventTs
  {
  }

  /** An interrupt with a nonzero code, poll not due: exactly one record, stamped now,
      and the reported reading is the interrupt's. */
  lemma InterruptRecordsOnce(s: MonitorState, input: CycleInput)
    requires s.irqFlag && input.intSrc != 0
    requires Elapsed(input.msCheck, s.tLastPoll) as int <= POLL_INTERVAL_MS
    ensures var r := Cycle(s, input);
      && r.history == Appended(Trimmed(s.history, input.now - RETENTION_SECONDS), IrqRecord(input, true), HISTORY_MAX)
      && r.lastEvent == input.intSrc && r.lastEventTs == input.now
      && r.lastDistance == input.irqDistance && r.lastEnergy == input.irqEnergy
      && r.tLastPoll == s.tLastPoll
  {
  }

  /** An interrupt with a nonzero code in a pass where the poll is due: the event is
      stored twice, once from the interrupt and once as the poll's confirmation, both
      stamped now and both carrying the code; the code is then cleared. */
  lemma InterruptAndPollRecordTwice(s: MonitorState, input: CycleInput)
    requires s.irqFlag && input.intSrc != 0
    requires Elapsed(input.msCheck, s.tLastPoll) as int > POLL_INTERVAL_MS
    ensures var r := Cycle(s, input);
      && r.history == Appended(Appended(Trimmed(s.history, input.now - RETENTION_SECONDS),
                                        IrqRecord(input, true), HISTORY_MAX),
                               PollRecord(input, input.intSrc, true), HISTORY_MAX)
      && r.lastEvent == 0 && r.tLastPoll == input.msStamp && r.lastEventTs == input.now
      && r.lastDistance == input.pollDistance && r.lastEnergy == input.pollEnergy
  {
  }

  /** Without an interrupt, a pending code is confirmed by the poll once 10 s have passed
      (one record, marked as not interrupt-triggered), and the code is cleared; the time
      of the last event is left as it was. */
  lemma PollConfirmsPendingEvent(s: MonitorState, input: CycleInput)
    requires !s.irqFlag && s.lastEvent > 0
    requires Elapsed(input.msCheck, s.tLastPoll) as int > POLL_INTERVAL_MS
    ensures var r := Cycle(s, input);
      && r.history == Appended(Trimmed(s.history, input.now - RETENTION_SECONDS),
                               PollRecord(input, s.lastEvent, false), HISTORY_MAX)
      && r.lastEvent == 0 && r.tLastPoll == input.msStamp && r.lastEventTs == s.lastEventTs
      && r.lastDistance == input.pollDistance && r.lastEnergy == input.pollEnergy
  {
  }

  /** Before 10 s have passed the poll does nothing: the pass ends in the state the trim
      and the interrupt path leave, so the poll time is kept and whatever code the pass
      ends with stays pending. */
  lemma PollWaitsForInterval(s: MonitorState, input: CycleInput)
    requires Elapsed(input.msCheck, s.tLastPoll) as int <= POLL_INTERVAL_MS
    ensures var seen := s.(history := Trimmed(s.history, input.now - RETENTION_SECONDS), irqSeen := s.irqFlag);
      Cycle(s, input) == (if s.irqFlag then InterruptPath(seen, input) else seen)
    ensures var r := Cycle(s, input);
      && r.tLastPoll == s.tLastPoll
      && r.lastEvent == (if s.irqFlag then input.intSrc else s.lastEvent)
  {
  }

  /** A pending code whose poll is not yet due: the pass only trims, and the readings,
      the poll time and the pending code are kept. */
  lemma PendingNotDueOnlyTrims(s: MonitorState, input: CycleInput)
    requires !s.irqFlag && s.lastEvent > 0
    requires Elapsed(input.msCheck, s.tLastPoll) as int <= POLL_INTERVAL_MS
    ensures Cycle(s, input) == s.(history := Trimmed(s.history, input.now - RETENTION_SECONDS), irqSeen := false)
  {
  }

  /** The store is time-ordered and every entry is stamped within `[lo, hi]`. */
  ghost predicate Retained(h: History, lo: int, hi: int) {
    Sorted(h) && forall e :: e in h ==> lo <= e.ts <= hi
  }

  lemma AppendRetains(h: History, e: LightningEvent, lo: int, hi: int)
    requires Retained(h, lo, hi) && e.ts == hi && lo <= hi
    ensures Retained(Appended(h, e, HISTORY_MAX), lo, hi)
  {
    AppendKeepsSorted(h, e, HISTORY_MAX);
  }

  /** With a clock that does not run backwards, every cycle leaves the store time-ordered
      and holding only entries from the last 24 hours. */
  lemma CycleRetainsLastDay(s: MonitorState, input: CycleInput)
    requires Sorted(s.history)
    requires forall e :: e in s.history ==> e.ts <= input.now
    ensures Retained(Cycle(s, input).history, input.now - RETENTION_SECONDS, input.now)
  {
    var lo := input.now - RETENTION_SECONDS;
    var trimmed := s.(history := Trimmed(s.history, lo));
    TrimRemovesStalePrefix(s.history, lo);
    TrimKeepsSorted(s.history, lo);
    TrimSortedIsExact(s.history, lo);
    assert Retained(trimmed.history, lo, input.now);
    var seen := trimmed.(irqSeen := trimmed.irqFlag);
    var afterIrq := if seen.irqFlag then InterruptPath(seen, input) else seen;
    if seen.irqFlag && input.intSrc != 0 {
      AppendRetains(seen.history, IrqRecord(input, true), lo, input.now);
    }
    assert Retained(afterIrq.history, lo, input.now);
    var final := PollPath(afterIrq, input);
    if PollFires(afterIrq, input) {
      AppendRetains(afterIrq.history, PollRecord(input, afterIrq.lastEvent, afterIrq.irqSeen), lo, input.now);
      assert final.history == Appended(afterIrq.history, PollRecord(input, afterIrq.lastEvent, afterIrq.irqSeen), HISTORY_MAX);
    }
    assert Retained(final.history, lo, input.now);
    assert Cycle(s, input) == final;
  }

  // ---------------------------------------------------------------------------
  // Live status (handleLive)
  // ---------------------------------------------------------------------------

  /** The values `/api/live` reports. */
  datatype LiveStatus = LiveStatus(
    lastDistanceKm: uint8,
    lastEnergy: uint32,
    lastEventTs: int,
    eventLabel: string,
    hasIso: bool,
    trigger: string,
    uptimeS: uint32,
    started: string,
    leds: Leds)

  // ---------------------------------------------------------------------------
  // The globals as one object
  // ---------------------------------------------------------------------------

  class Monitor {
    var history: History
    var irqFlag: bool
    var tLastPoll: uint32
    var lastDistance: uint8
    var lastEnergy: uint32
    var lastEventTs: int
    var lastEvent: uint8
    var started: bool
    var irqSeen: bool

    function State(): MonitorState
      reads this
    {
      MonitorState(history, irqFlag, tLastPoll, lastDistance, lastEnergy, lastEventTs,
                   lastEvent, started, irqSeen)
    }

    ghost predicate Valid()
      reads this
    {
      Consistent(State())
    }

    /** Start-up: initial globals; `sensorStarted` is the outcome of the sensor
        initialisation. */
    constructor (sensorStarted: bool)
      ensures Valid() && State() == Boot(sensorStarted)
    {
      history := [];
      irqFlag := false;
      tLastPoll := 0;
      lastDistance := OUT_OF_RANGE_KM;
      lastEnergy := 0;
      lastEventTs := 0;
      lastEvent := 0;
      started := sensorStarted;
      irqSeen := false;
    }

    /** The interrupt handler: it only raises the flag. */
    method OnInterrupt()
      modifies this`irqFlag
      ensures State() == old(State()).(irqFlag := true)
    {
      irqFlag := true;
    }

    /** Drop-oldest append. */
    method Append(e: LightningEvent)
      modifies this`history
      ensures history == Appended(old(history), e, HISTORY_MAX)
      ensures |old(history)| <= HISTORY_MAX ==> |history| <= HISTORY_MAX
    {
      AppendKeepsCap(history, e, HISTORY_MAX);
      if |history| >= HISTORY_MAX {
        history := history[1..];
      }
      history := history + [e];
    }

    /** `trimHistoryOlderThan`: pop the front while it is older than `cutoff`. */
    method TrimOlderThan(cutoff: int)
      modifies this`history
      ensures history == Trimmed(old(history), cutoff)
    {
      while history != [] && history[0].ts < cutoff
        invariant Trimmed(history, cutoff) == Trimmed(old(history), cutoff)
        decreases |history|
      {
        history := history[1..];
      }
    }

    /** `/api/events`: the entries of the last `since` seconds, newest first, walking
        back from the newest and stopping at the first older entry. */
    method Events(now: int, since: Option<int>) returns (events: History)
      ensures events == Window(history, now - SinceSeconds(since))
    {
      var cutoff := now - SinceSeconds(since);
      events := [];
      var i := |history|;
      assert history[..i] == history;
      while i > 0
        invariant 0 <= i <= |history|
        invariant Window(history, cutoff) == events + Window(history[..i], cutoff)
        decreases i
      {
        var e := history[i - 1];
        WindowPrefixStep(history, i, cutoff);
        if e.ts < cutoff {
          break;
        }
        ghost var rest := Window(history[..i - 1], cutoff);
        assert events + ([e] + rest) == (events + [e]) + rest;
        events := events + [e];
        i := i - 1;
      }
    }

    /** `/api/stats`: the window length and the five counters over the whole store. */
    method Statistics(now: int, range: string) returns (rangeS: int, count: uint32, near: uint32, mid: uint32, far: uint32, oor: uint32)
      requires Valid()
      ensures rangeS == RangeSeconds(range)
      ensures Store.Stats(count as nat, near as nat, mid as nat, far as nat, oor as nat) == Tally(history, now - rangeS)
      ensures count as int == near as int + mid as int + far as int + oor as int
    {
      rangeS := RangeSeconds(range);
      var cutoff := now - rangeS;
      count, near, mid, far, oor := 0, 0, 0, 0, 0;
      for i := 0 to |history|
        invariant Store.Stats(count as nat, near as nat, mid as nat, far as nat, oor as nat) == Tally(history[..i], cutoff)
      {
        var e := history[i];
        assert history[..i + 1][..i] == history[..i];
        TallyBucketsSum(history[..i], cutoff);
        if e.ts < cutoff {
          continue;
        }
        count := count + 1;
        if e.distance == OUT_OF_RANGE_KM {
          oor := oor + 1;
        } else if e.distance <= 5 {
          near := near + 1;
        } else if e.distance <= 15 {
          mid := mid + 1;
        } else {
          far := far + 1;
        }
      }
      assert history[..|history|] == history;
      TallyBucketsSum(history, cutoff);
    }

    /** `/api/live` at millisecond counter `ms`. */
    function Live(ms: uint32): (r: LiveStatus)
      reads this
      // the reported reading and event time are the globals
      ensures r.lastDistanceKm == lastDistance && r.lastEnergy == lastEnergy && r.lastEventTs == lastEventTs
      // the LEDs show the reported distance
      ensures r.leds == LedsForDistance(r.lastDistanceKm)
      // the label names the pending code and spells it in binary
      ensures r.eventLabel == EventLabel(lastEvent)
      // the ISO time is given only once an event has been recorded
      ensures r.hasIso <==> lastEventTs != 0
      ensures r.trigger == (if irqSeen then "Interrupt" else "Polling")
      ensures r.started == (if started then "Ja, I2C Up" else "Nein, I2C Down")
      ensures r.uptimeS as int * 1000 <= ms as int < (r.uptimeS as int + 1) * 1000
    {
      LiveStatus(lastDistance, lastEnergy, lastEventTs, EventLabel(lastEvent), lastEventTs != 0,
                 if irqSeen then "Interrupt" else "Polling", ms / 1000,
                 if started then "Ja, I2C Up" else "Nein, I2C Down", LedsForDistance(lastDistance))
    }

    /** The interrupt branch of `loop()`, entered when the flag was seen set. */
    method HandleInterrupt(input: CycleInput)
      requires irqFlag
      modifies this
      ensures State() == InterruptPath(old(State()), input)
    {
      irqFlag := false;
      var intSrc := input.intSrc;
      lastEvent := intSrc;
      if intSrc != 0 {
        var dist, energy := input.irqDistance, input.irqEnergy;
        lastDistance := dist;
        lastEnergy := energy;
        lastEventTs := input.now;
        Append(IrqRecord(input, irqSeen));
      } else if intSrc as bv8 & 0x01 != 0 {
        // noise: cannot be reached, the code is zero here
        assert false;
      } else if intSrc as bv8 & 0x04 != 0 {
        // disturber: cannot be reached either
        assert false;
      }
    }

    /** The 10-second poll of `loop()`. */
    method Poll(input: CycleInput)
      modifies this
      ensures State() == PollPath(old(State()), input)
    {
      if Elapsed(input.msCheck, tLastPoll) as int > POLL_INTERVAL_MS {
        if lastEvent > 0 {
          tLastPoll := input.msStamp;
          var dist, energy := input.pollDistance, input.pollEnergy;
          lastDistance := dist;
          lastEnergy := energy;
          Append(PollRecord(input, lastEvent, irqSeen));
          lastEvent := 0;
        }
      }
    }

    /** One pass of `loop()`. */
    method Loop(input: CycleInput)
      requires Valid()
      modifies this
      ensures Valid()
      ensures State() == Cycle(old(State()), input)
    {
      ghost var s0 := State();
      TrimOlderThan(input.now - RETENTION_SECONDS);
      irqSeen := irqFlag;
      ghost var seen := s0.(history := Trimmed(s0.history, input.now - RETENTION_SECONDS), irqSeen := s0.irqFlag);
      assert history == seen.history && irqSeen == seen.irqSeen && irqFlag == seen.irqFlag;
      assert State() == seen;
      if irqFlag {
        HandleInterrupt(input);
      }
      ghost var afterIrq := State();
      assert afterIrq == if seen.irqFlag then InterruptPath(seen, input) else seen;
      Poll(input);
      CycleKeepsConsistent(s0, input);
    }
  }
}
