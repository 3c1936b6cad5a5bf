/** Progress and shutdown: something can always happen, and after cancellation the producers, the
    channel and the consumer come to rest. */
module Draining {
  import opened Outcomes
  import opened Loading
  import opened Filters
  import opened Tables
  import opened Lifecycle
  import opened Display

  /** Everybody has returned and the channel is closed and empty. */
  predicate AtRest(s: State) {
    && s.main == Returned && s.closed && !s.watching && |s.queue| == 0
    && forall i :: 0 <= i < |s.producers| ==> Quiet(s.producers[i])
  }

  /** Only the outside world can act: every live producer waits for a record or a tick. */
  predicate AwaitsInput(s: State) {
    && !s.cancelled && s.main == Waiting && |s.queue| == 0
    && (forall i :: 0 <= i < |s.producers| ==> s.producers[i].Idle? || s.producers[i].Finished?)
    && (exists i :: 0 <= i < |s.producers| && s.producers[i].Idle?)
  }

  // ---------------------------------------------------------------- deadlock freedom

  /** A step for producer `i` when it is neither quiet nor waiting for input. */
  lemma ProducerCanMove(cfg: Config, s: State, i: nat) returns (step: Step)
    requires ClosedLast(cfg, s) && i < |s.producers|
    requires !Quiet(s.producers[i]) && (s.producers[i].Idle? ==> s.cancelled)
    ensures Enabled(cfg, s, step) && !step.Obtain? && !step.Cancel?
  {
    var p := s.producers[i];
    match p
    case Registering => step := Register(i);
    case Idle(reader) => step := if reader then CloseReader(i) else Stop(i);
    case Busy(pending, _) =>
      if |pending| == 0 {
        step := PollDone(i);
      } else if |s.queue| < CAPACITY || !cfg.passes(EntryFor(cfg, i, pending[0])) {
        step := Offer(i);
      } else {
        step := Receive;
      }
  }

  /** Main result: in every reachable state some step other than a fresh tick, record or
      cancellation is possible, unless all are at rest or only the outside world can act. */
  lemma NeverDeadlocked(cfg: Config, s: State) returns (step: Step)
    requires ClosedLast(cfg, s) && !AtRest(s) && !AwaitsInput(s)
    ensures Enabled(cfg, s, step) && !step.Obtain? && !step.Cancel?
  {
    if s.main == Starting {
      return BeginWatching;
    }
    if i :| 0 <= i < |s.producers| && !Quiet(s.producers[i]) && (s.producers[i].Idle? ==> s.cancelled) {
      step := ProducerCanMove(cfg, s, i);
      return;
    }
    if s.main == Spawning {
      if NotStarted !in s.producers {
        return AllSpawned;
      }
      var i :| 0 <= i < |s.producers| && s.producers[i] == NotStarted;
      return Spawn(i);
    }
    if |s.queue| > 0 {
      return Receive;
    }
    if s.main == Returned {
      return StopWatching;
    }
    assert forall i :: 0 <= i < |s.producers| ==> s.producers[i].Finished? || (s.producers[i].Idle? && !s.cancelled);
    step := WaitOver;
    assert AwaitsInput(s) || forall i :: 0 <= i < |s.producers| ==> !s.producers[i].Idle?;
  }

  // ---------------------------------------------------------------- the measure

  function Weight(p: Producer): nat {
    match p
    case NotStarted => 7
    case Registering => 6
    case Idle(reader) => if reader then 3 else 2
    case Busy(pending, reader) => 2 * |pending| + if reader then 4 else 3
    case Finished(_) => 0
  }

  function Total(ps: seq<Producer>): nat {
    if |ps| == 0 then 0 else Total(ps[..|ps| - 1]) + Weight(ps[|ps| - 1])
  }

  lemma {:induction false} TotalUpdate(ps: seq<Producer>, i: nat, p: Producer)
    requires i < |ps|
    ensures Total(ps[i := p]) + Weight(ps[i]) == Total(ps) + Weight(p)
  {
    var init := ps[..|ps| - 1];
    if i == |ps| - 1 {
      assert ps[i := p][..i] == init;
    } else {
      TotalUpdate(init, i, p);
      assert ps[i := p][..|ps| - 1] == init[i := p];
    }
  }

  /** Pending poll entries, queued entries, live producers, and what `Load` and the consumer have left. */
  function Measure(s: State): nat {
    Total(s.producers) + |s.queue|
    + (match s.main case Starting => 3 case Spawning => 2 case Waiting => 1 case Returned => 0)
    + (if s.watching then 1 else 0) + (if s.cancelled then 0 else 1)
  }

  lemma OfferCounts(cfg: Config, s: State, i: nat)
    requires ClosedLast(cfg, s) && Enabled(cfg, s, Offer(i))
    ensures Measure(Next(cfg, s, Offer(i))) < Measure(s)
  {
    assert !Quiet(s.producers[i]);
    TotalUpdate(s.producers, i, s.producers[i].(pending := s.producers[i].pending[1..]));
  }

  /** Replacing one producer by a lighter one, with the rest of the measure not growing. */
  lemma LighterProducer(s: State, t: State, i: nat, p: Producer)
    requires i < |s.producers| && t.producers == s.producers[i := p] && Weight(p) < Weight(s.producers[i])
    requires t.queue == s.queue && t.main == s.main && t.watching == s.watching && (s.cancelled ==> t.cancelled)
    ensures Measure(t) < Measure(s)
  {
    TotalUpdate(s.producers, i, p);
  }

  lemma SpawnCounts(cfg: Config, s: State, i: nat)
    requires AllSupported(cfg) && Enabled(cfg, s, Spawn(i))
    ensures Measure(Next(cfg, s, Spawn(i))) < Measure(s)
  {
    assert Supported(cfg.sources[i].mapType);
    LighterProducer(s, Next(cfg, s, Spawn(i)), i, Registering);
  }

  lemma RegisterCounts(cfg: Config, s: State, i: nat)
    requires Enabled(cfg, s, Register(i))
    ensures Measure(Next(cfg, s, Register(i))) < Measure(s)
  {
    LighterProducer(s, Next(cfg, s, Register(i)), i, Idle(cfg.sources[i].mapType == RingBuf));
  }

  lemma PollDoneCounts(cfg: Config, s: State, i: nat)
    requires Enabled(cfg, s, PollDone(i))
    ensures Measure(Next(cfg, s, PollDone(i))) < Measure(s)
  {
    LighterProducer(s, Next(cfg, s, PollDone(i)), i, Idle(s.producers[i].reader));
  }

  lemma CloseReaderCounts(cfg: Config, s: State, i: nat)
    requires Enabled(cfg, s, CloseReader(i))
    ensures Measure(Next(cfg, s, CloseReader(i))) < Measure(s)
  {
    LighterProducer(s, Next(cfg, s, CloseReader(i)), i, s.producers[i].(reader := false));
  }

  lemma StopCounts(cfg: Config, s: State, i: nat)
    requires Enabled(cfg, s, Stop(i))
    ensures Measure(Next(cfg, s, Stop(i))) < Measure(s)
  {
    LighterProducer(s, Next(cfg, s, Stop(i)), i, Finished(false));
  }

  lemma FailCounts(cfg: Config, s: State, i: nat)
    requires Enabled(cfg, s, Fail(i))
    ensures Measure(Next(cfg, s, Fail(i))) < Measure(s)
  {
    LighterProducer(s, Next(cfg, s, Fail(i)), i, Finished(true));
  }

  /** Main result: every step other than a fresh tick or record brings the system closer to rest. */
  lemma EveryOtherStepCounts(cfg: Config, s: State, step: Step)
    requires ClosedLast(cfg, s) && AllSupported(cfg) && Enabled(cfg, s, step) && !step.Obtain?
    ensures Measure(Next(cfg, s, step)) < Measure(s)
  {
    match step
    case LoadFails =>
    case BeginWatching =>
    case AllSpawned =>
    case Cancel =>
    case WaitOver =>
    case Receive =>
    case StopWatching =>
    case Offer(i) => OfferCounts(cfg, s, i);
    case Spawn(i) => SpawnCounts(cfg, s, i);
    case Register(i) => RegisterCounts(cfg, s, i);
    case PollDone(i) => PollDoneCounts(cfg, s, i);
    case CloseReader(i) => CloseReaderCounts(cfg, s, i);
    case Stop(i) => StopCounts(cfg, s, i);
    case Fail(i) => FailCounts(cfg, s, i);
  }

  /** The schedule's steps after `from` all happen, and none is a fresh tick or record. */
  ghost predicate OnlyDrains(cfg: Config, from: nat, schedule: seq<Step>)
    requires from <= |schedule|
  {
    forall k :: from <= k < |schedule| ==> Enabled(cfg, After(cfg, schedule[..k]), schedule[k]) && !schedule[k].Obtain?
  }

  /** Main result: without fresh input no run goes on for longer than the measure. */
  lemma {:induction false} DrainingIsBounded(cfg: Config, from: nat, schedule: seq<Step>)
    requires AllSupported(cfg) && from <= |schedule| && OnlyDrains(cfg, from, schedule)
    ensures |schedule| - from + Measure(After(cfg, schedule)) <= Measure(After(cfg, schedule[..from]))
  {
    if from == |schedule| {
      assert schedule[..from] == schedule;
    } else {
      var init, last := schedule[..|schedule| - 1], schedule[|schedule| - 1];
      forall k | from <= k < |init|
        ensures Enabled(cfg, After(cfg, init[..k]), init[k]) && !init[k].Obtain?
      {
        assert init[..k] == schedule[..k];
      }
      DrainingIsBounded(cfg, from, init);
      assert init[..from] == schedule[..from];
      assert Enabled(cfg, After(cfg, schedule[..|init|]), schedule[|init|]);
      ClosedLastAlways(cfg, init);
      EveryOtherStepCounts(cfg, After(cfg, init), last);
    }
  }

  lemma {:induction false} CancelledForGood(cfg: Config, from: nat, schedule: seq<Step>)
    requires from <= |schedule| && After(cfg, schedule[..from]).cancelled
    ensures After(cfg, schedule).cancelled
  {
    if from == |schedule| {
      assert schedule[..from] == schedule;
    } else {
      var init, step := schedule[..|schedule| - 1], schedule[|schedule| - 1];
      assert init[..from] == schedule[..from];
      CancelledForGood(cfg, from, init);
      if Enabled(cfg, After(cfg, init), step) {
        StaysCancelled(cfg, After(cfg, init), step);
      }
    }
  }

  /** Main result: from any reachable cancelled state some continuation without fresh input comes to
      rest. */
  lemma ComesToRest(cfg: Config, schedule: seq<Step>) returns (longer: seq<Step>)
    requires AllSupported(cfg) && After(cfg, schedule).cancelled
    ensures |schedule| <= |longer| && longer[..|schedule|] == schedule
    ensures OnlyDrains(cfg, |schedule|, longer)
    ensures AtRest(After(cfg, longer))
    decreases Measure(After(cfg, schedule))
  {
    var s := After(cfg, schedule);
    ClosedLastAlways(cfg, schedule);
    if AtRest(s) {
      longer := schedule;
    } else {
      var step := NeverDeadlocked(cfg, s);
      AfterSnoc(cfg, schedule, step);
      StaysCancelled(cfg, s, step);
      EveryOtherStepCounts(cfg, s, step);
      var next := schedule + [step];
      longer := ComesToRest(cfg, next);
      forall k | |schedule| <= k < |longer|
        ensures Enabled(cfg, After(cfg, longer[..k]), longer[k]) && !longer[k].Obtain?
      {
        if k == |schedule| {
          assert longer[k] == longer[..|next|][k] && longer[..k] == longer[..|next|][..k];
        }
      }
      assert longer[..|schedule|] == longer[..|next|][..|schedule|];
    }
  }

  /** Main result: a maximal run is at rest, or waits for input without having been cancelled; in the latter
      case every producer is still there and able to take input, and none has failed. */
  lemma OnlyRestIsFinal(cfg: Config, schedule: seq<Step>)
    requires AllSupported(cfg)
    requires forall step :: Enabled(cfg, After(cfg, schedule), step) ==> step.Obtain? || step.Cancel?
    ensures AtRest(After(cfg, schedule)) || AwaitsInput(After(cfg, schedule))
    ensures AwaitsInput(After(cfg, schedule)) ==>
              forall i :: 0 <= i < |After(cfg, schedule).producers| ==>
                            && After(cfg, schedule).producers[i].Idle?
                            && forall e :: Enabled(cfg, After(cfg, schedule), Obtain(i, [e]))
  {
    var s := After(cfg, schedule);
    FinishedMeansCancelledAlways(cfg, schedule);
    ClosedLastAlways(cfg, schedule);
    if !AtRest(s) && !AwaitsInput(s) {
      var step := NeverDeadlocked(cfg, s);
      assert false;
    }
    if AwaitsInput(s) {
      forall i, e | 0 <= i < |s.producers|
        ensures s.producers[i].Idle? && Enabled(cfg, s, Obtain(i, [e]))
      {
        IdleProducersCanRead(cfg, schedule, i, e);
      }
    }
  }

  /** Main result: whatever order the steps come in, a run that was cancelled after its first `from`
      steps and has nothing left to do but take fresh input is at rest, and took no more steps since
      than the measure allowed if it took no fresh input. */
  lemma EveryDrainingRunRests(cfg: Config, from: nat, schedule: seq<Step>)
    requires AllSupported(cfg) && from <= |schedule| && After(cfg, schedule[..from]).cancelled
    requires forall step :: Enabled(cfg, After(cfg, schedule), step) ==> step.Obtain?
    ensures AtRest(After(cfg, schedule))
    ensures OnlyDrains(cfg, from, schedule) ==> |schedule| - from <= Measure(After(cfg, schedule[..from]))
  {
    CancelledForGood(cfg, from, schedule);
    OnlyRestIsFinal(cfg, schedule);
    if OnlyDrains(cfg, from, schedule) {
      DrainingIsBounded(cfg, from, schedule);
    }
  }

  /** Main result: one failure ends it all. A run in which some producer has failed and nothing is left to
      do but take fresh input has every producer returned, the channel closed and the consumer gone. */
  lemma FailureBringsRest(cfg: Config, schedule: seq<Step>, i: nat)
    requires AllSupported(cfg) && i < |After(cfg, schedule).producers|
    requires After(cfg, schedule).producers[i] == Finished(true)
    requires forall step :: Enabled(cfg, After(cfg, schedule), step) ==> step.Obtain?
    ensures AtRest(After(cfg, schedule))
  {
    FinishedMeansCancelledAlways(cfg, schedule);
    assert schedule[..|schedule|] == schedule;
    EveryDrainingRunRests(cfg, |schedule|, schedule);
  }

  // ---------------------------------------------------------------- what is left on the screen

  /** Main result: when all are at rest, every passing entry a producer read has been handled unless
      the producer failed, and the table of a hash map shows each key's latest value, in order of
      first appearance, if the hash does not collide. */
  lemma FinalTables(cfg: Config, schedule: seq<Step>, i: nat)
    requires WellFormed(cfg) && i < |cfg.sources| && AtRest(After(cfg, schedule))
    requires i < |After(cfg, schedule).producers| && After(cfg, schedule).producers[i] == Finished(false)
    ensures var s, src := After(cfg, schedule), cfg.sources[i];
            && |s.produced| == |cfg.sources|
            && src.name in s.ui && Shows(s.ui[src.name])
            && LogOf(s.handled, src.name) == Passing(cfg, i, s.produced[i])
            && s.ui[src.name].entries == RowsFor(cfg.hash, ShownAs(src.mapType), Passing(cfg, i, s.produced[i]))
            && (src.mapType == Hash && NoCollision(cfg.hash, Passing(cfg, i, s.produced[i])) ==>
                  s.ui[src.name].entries == LatestRows(cfg.hash, Passing(cfg, i, s.produced[i])))
  {
    var s, src := After(cfg, schedule), cfg.sources[i];
    EntriesAreConserved(cfg, schedule, i);
    TablesShowHandledEntries(cfg, schedule, i);
    assert LogOf(s.queue, src.name) == [];
    RowsAreLatestIffNoCollision(cfg.hash, Passing(cfg, i, s.produced[i]));
  }

  /** Main result: without a filter, all that a producer has read is handled in the end, unless it failed. */
  lemma NothingIsDropped(cfg: Config, rx: Regexes, schedule: seq<Step>, i: nat)
    requires WellFormed(cfg) && i < |cfg.sources| && AtRest(After(cfg, schedule))
    requires forall e :: cfg.passes(e) == Passes(rx, None, e)
    requires i < |After(cfg, schedule).producers| && After(cfg, schedule).producers[i] == Finished(false)
    ensures |After(cfg, schedule).produced| == |cfg.sources|
    ensures LogOf(After(cfg, schedule).handled, cfg.sources[i].name) == After(cfg, schedule).produced[i]
  {
    NoFilterConservesAll(cfg, rx, schedule, i);
    assert LogOf(After(cfg, schedule).queue, cfg.sources[i].name) == [];
  }
}
