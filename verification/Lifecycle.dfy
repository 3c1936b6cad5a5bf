/** Producers, the channel of capacity 20, and the consumer (`Load`/`WatchMaps` in
    pkg/loader/loader.go, `Run`/`watch`/`SendEntry`/`Close` in pkg/tui/tui.go) as interleaved atomic
    steps. */
module Lifecycle {
  import opened Outcomes
  import opened Stats
  import opened Loading
  import opened Filters
  import opened Tables

  const CAPACITY: nat := 20

  /** A watched map, as `WatchMaps` is given it. */
  datatype Source = Source(name: string, mapType: MapType, labels: seq<string>)

  /** `passes` is the outcome of `filterMatch`. */
  datatype Config = Config(sources: seq<Source>, hash: Hasher, passes: MapEntry -> bool)

  /** `watchedMaps` is keyed by name. */
  ghost predicate WellFormed(cfg: Config) {
    forall i, j :: 0 <= i < j < |cfg.sources| ==> cfg.sources[i].name != cfg.sources[j].name
  }

  /** The goroutine that runs `Load`. */
  datatype Main = Starting | Spawning | Waiting | Returned

  /** A goroutine started by `WatchMaps`. A ring buffer's `reader` is open until its closer runs;
      `pending` are the entries it has read and not yet offered to the watcher. */
  datatype Producer =
    | NotStarted
    | Registering
    | Idle(reader: bool)
    | Busy(pending: seq<KvPair>, reader: bool)
    | Finished(failed: bool)

  /** `produced`, `sent` and `handled` record what has happened and influence nothing. */
  datatype State = State(main: Main, producers: seq<Producer>, cancelled: bool, queue: seq<MapEntry>, closed: bool,
                         panicked: bool, watching: bool, ui: MapOfMaps,
                         produced: seq<seq<KvPair>>, sent: seq<MapEntry>, handled: seq<MapEntry>)

  function Initial(cfg: Config): State {
    State(Starting, seq(|cfg.sources|, _ => NotStarted), false, [], false, false, true, map[],
          seq(|cfg.sources|, _ => []), [], [])
  }

  datatype Step =
    | LoadFails
    | BeginWatching
    | Spawn(i: nat)
    | AllSpawned
    | Cancel
    | Register(i: nat)
    | Obtain(i: nat, entries: seq<KvPair>)
    | Offer(i: nat)
    | PollDone(i: nat)
    | CloseReader(i: nat)
    | Stop(i: nat)
    | Fail(i: nat)
    | WaitOver
    | Receive
    | StopWatching

  predicate Supported(t: MapType) {
    t in {RingBuf, Hash, ArrayMap}
  }

  /** The type under which the interface registers a map. */
  function ShownAs(t: MapType): MapType {
    if t == RingBuf then RingBuf else Hash
  }

  function EntryFor(cfg: Config, i: nat, e: KvPair): MapEntry
    requires i < |cfg.sources|
  {
    MapEntry(cfg.sources[i].name, e)
  }

  predicate Enabled(cfg: Config, s: State, step: Step) {
    && !s.panicked
    && |s.producers| == |s.produced| == |cfg.sources|
    && match step
       case LoadFails => s.main == Starting
       case BeginWatching => s.main == Starting
       case Spawn(i) => s.main == Spawning && i < |s.producers| && s.producers[i] == NotStarted
       case AllSpawned => s.main == Spawning && NotStarted !in s.producers
       case Cancel => !s.cancelled
       case Register(i) => i < |s.producers| && s.producers[i] == Registering
       case Obtain(i, entries) =>
         && i < |s.producers| && s.producers[i].Idle?
         && (cfg.sources[i].mapType == RingBuf ==> s.producers[i].reader && |entries| == 1)
       case Offer(i) =>
         && i < |s.producers| && s.producers[i].Busy? && |s.producers[i].pending| > 0
         && (cfg.passes(EntryFor(cfg, i, s.producers[i].pending[0])) && !s.closed ==> |s.queue| < CAPACITY)
       case PollDone(i) => i < |s.producers| && s.producers[i].Busy? && |s.producers[i].pending| == 0
       case CloseReader(i) =>
         i < |s.producers| && (s.producers[i].Idle? || s.producers[i].Busy?) && s.producers[i].reader && s.cancelled
       case Stop(i) => i < |s.producers| && s.producers[i].Idle? && !s.producers[i].reader && s.cancelled
       case Fail(i) =>
         i < |s.producers| && (s.producers[i].Busy? || (s.producers[i].Idle? && cfg.sources[i].mapType == RingBuf))
       case WaitOver => s.main == Waiting && forall p :: p in s.producers ==> p.Finished?
       case Receive => s.watching && |s.queue| > 0
       case StopWatching => s.watching && |s.queue| == 0 && s.closed
  }

  /** The producer's next entry: dropped by the filter, queued, or the panic of a send on a closed
      channel. */
  function Offered(cfg: Config, s: State, i: nat): State
    requires Enabled(cfg, s, Offer(i))
  {
    var p := s.producers[i];
    var e := EntryFor(cfg, i, p.pending[0]);
    var t := s.(producers := s.producers[i := p.(pending := p.pending[1..])]);
    if !cfg.passes(e) then t
    else if s.closed then s.(panicked := true)
    else t.(queue := s.queue + [e], sent := s.sent + [e])
  }

  function Next(cfg: Config, s: State, step: Step): State
    requires Enabled(cfg, s, step)
  {
    match step
    case LoadFails => s.(main := Returned, closed := true)
    case BeginWatching => s.(main := Spawning)
    case Spawn(i) =>
      if Supported(cfg.sources[i].mapType) then s.(producers := s.producers[i := Registering])
      else s.(main := Returned, closed := true)
    case AllSpawned => s.(main := Waiting)
    case Cancel => s.(cancelled := true)
    case Register(i) =>
      var src := cfg.sources[i];
      s.(producers := s.producers[i := Idle(src.mapType == RingBuf)],
         ui := Registered(s.ui, src.name, src.labels, ShownAs(src.mapType)))
    case Obtain(i, entries) =>
      s.(producers := s.producers[i := Busy(entries, s.producers[i].reader)],
         produced := s.produced[i := s.produced[i] + entries])
    case Offer(i) => Offered(cfg, s, i)
    case PollDone(i) => s.(producers := s.producers[i := Idle(s.producers[i].reader)])
    case CloseReader(i) => s.(producers := s.producers[i := s.producers[i].(reader := false)])
    case Stop(i) => s.(producers := s.producers[i := Finished(false)])
    case Fail(i) => s.(producers := s.producers[i := Finished(true)], cancelled := true)
    case WaitOver => s.(main := Returned, closed := true, cancelled := true)
    case Receive =>
      s.(queue := s.queue[1..], ui := Handled(cfg.hash, s.ui, s.queue[0]), handled := s.handled + [s.queue[0]])
    case StopWatching => s.(watching := false)
  }

  /** The state after a schedule; a step that is not enabled does not happen. */
  function After(cfg: Config, schedule: seq<Step>): State {
    if |schedule| == 0 then Initial(cfg)
    else
      var s, step := After(cfg, schedule[..|schedule| - 1]), schedule[|schedule| - 1];
      if Enabled(cfg, s, step) then Next(cfg, s, step) else s
  }

  // ---------------------------------------------------------------- the channel is closed last

  ghost predicate AllSupported(cfg: Config) {
    forall i :: 0 <= i < |cfg.sources| ==> Supported(cfg.sources[i].mapType)
  }

  predicate Quiet(p: Producer) {
    p.NotStarted? || p.Finished?
  }

  /** `Load` closes the channel on its way out, and only when no producer is left. */
  ghost predicate ClosedLast(cfg: Config, s: State) {
    && |s.producers| == |s.produced| == |cfg.sources|
    && !s.panicked
    && (s.closed <==> s.main == Returned)
    && (s.main == Starting ==> forall i :: 0 <= i < |s.producers| ==> s.producers[i].NotStarted?)
    && (s.main == Waiting ==> forall i :: 0 <= i < |s.producers| ==> !s.producers[i].NotStarted?)
    && (s.main == Returned ==> forall i :: 0 <= i < |s.producers| ==> Quiet(s.producers[i]))
    && (!s.watching ==> s.closed && |s.queue| == 0)
  }

  lemma ClosedLastStep(cfg: Config, s: State, step: Step)
    requires AllSupported(cfg) && ClosedLast(cfg, s) && Enabled(cfg, s, step)
    ensures ClosedLast(cfg, Next(cfg, s, step))
  {
    match step
    case Spawn(i) => assert Supported(cfg.sources[i].mapType);
    case Offer(i) => assert !Quiet(s.producers[i]);
    case Register(i) => assert !Quiet(s.producers[i]);
    case Obtain(i, _) => assert !Quiet(s.producers[i]);
    case PollDone(i) => assert !Quiet(s.producers[i]);
    case CloseReader(i) => assert !Quiet(s.producers[i]);
    case WaitOver =>
      forall i | 0 <= i < |s.producers|
        ensures Quiet(s.producers[i])
      {
        assert s.producers[i] in s.producers;
      }
    case AllSpawned =>
      forall i | 0 <= i < |s.producers|
        ensures !s.producers[i].NotStarted?
      {
        assert s.producers[i] in s.producers;
      }
    case _ =>
  }

  lemma {:induction false} ClosedLastAlways(cfg: Config, schedule: seq<Step>)
    requires AllSupported(cfg)
    ensures ClosedLast(cfg, After(cfg, schedule))
  {
    if |schedule| > 0 {
      var init, step := schedule[..|schedule| - 1], schedule[|schedule| - 1];
      ClosedLastAlways(cfg, init);
      if Enabled(cfg, After(cfg, init), step) {
        ClosedLastStep(cfg, After(cfg, init), step);
      }
    }
  }

  /** The filter drops every entry of source `i`. */
  ghost predicate Silenced(cfg: Config, i: nat)
    requires i < |cfg.sources|
  {
    forall e :: !cfg.passes(EntryFor(cfg, i, e))
  }

  /** No supported map has an entry that passes the filter. */
  ghost predicate AllSilenced(cfg: Config) {
    forall i :: 0 <= i < |cfg.sources| && Supported(cfg.sources[i].mapType) ==> Silenced(cfg, i)
  }

  /** Only producers of supported maps are ever started, and nobody has panicked. */
  ghost predicate OnlySupportedStarted(cfg: Config, s: State) {
    && |s.producers| == |s.produced| == |cfg.sources|
    && !s.panicked
    && forall i :: 0 <= i < |s.producers| && !Supported(cfg.sources[i].mapType) ==> s.producers[i].NotStarted?
  }

  lemma SilencedStep(cfg: Config, s: State, step: Step)
    requires AllSilenced(cfg) && OnlySupportedStarted(cfg, s) && Enabled(cfg, s, step)
    ensures OnlySupportedStarted(cfg, Next(cfg, s, step))
  {
    if step.Offer? {
      assert Supported(cfg.sources[step.i].mapType) && Silenced(cfg, step.i);
    }
  }

  lemma {:induction false} SilencedAlways(cfg: Config, schedule: seq<Step>)
    requires AllSilenced(cfg)
    ensures OnlySupportedStarted(cfg, After(cfg, schedule))
  {
    if |schedule| > 0 {
      var init, step := schedule[..|schedule| - 1], schedule[|schedule| - 1];
      SilencedAlways(cfg, init);
      if Enabled(cfg, After(cfg, init), step) {
        SilencedStep(cfg, After(cfg, init), step);
      }
    }
  }

  /** The schedule on which an unsupported map makes a producer send on the closed channel. */
  function FatalSchedule(i: nat, j: nat, e: KvPair): seq<Step> {
    [BeginWatching, Spawn(i), Register(i), Obtain(i, [e]), Spawn(j), Offer(i)]
  }

  lemma AfterSnoc(cfg: Config, schedule: seq<Step>, step: Step)
    ensures var s := After(cfg, schedule);
            After(cfg, schedule + [step]) == if Enabled(cfg, s, step) then Next(cfg, s, step) else s
  {
    assert (schedule + [step])[..|schedule|] == schedule;
  }

  /** `WatchMaps` is still spawning, `j` is yet to come and producer `i` is in state `p`. */
  ghost predicate OnTheWay(cfg: Config, s: State, i: nat, j: nat, p: Producer) {
    && !s.panicked && !s.closed && |s.queue| == 0
    && |s.producers| == |s.produced| == |cfg.sources|
    && i < |s.producers| && j < |s.producers|
    && s.main == Spawning && s.producers[j] == NotStarted && s.producers[i] == p
  }

  lemma AfterOne(cfg: Config, step: Step)
    ensures After(cfg, [step]) == if Enabled(cfg, Initial(cfg), step) then Next(cfg, Initial(cfg), step) else Initial(cfg)
  {
    AfterSnoc(cfg, [], step);
    assert [] + [step] == [step];
  }

  lemma FatalBegin(cfg: Config, i: nat, j: nat)
    requires i < |cfg.sources| && j < |cfg.sources|
    ensures OnTheWay(cfg, After(cfg, [BeginWatching]), i, j, NotStarted)
  {
    AfterOne(cfg, BeginWatching);
    assert Enabled(cfg, Initial(cfg), BeginWatching);
  }

  lemma FatalSpawn(cfg: Config, s: State, i: nat, j: nat)
    requires OnTheWay(cfg, s, i, j, NotStarted) && i != j && Supported(cfg.sources[i].mapType)
    ensures Enabled(cfg, s, Spawn(i)) && OnTheWay(cfg, Next(cfg, s, Spawn(i)), i, j, Registering)
  {
  }

  lemma FatalStart(cfg: Config, i: nat, j: nat)
    requires i < |cfg.sources| && j < |cfg.sources| && i != j && Supported(cfg.sources[i].mapType)
    ensures OnTheWay(cfg, After(cfg, [BeginWatching, Spawn(i)]), i, j, Registering)
  {
    FatalBegin(cfg, i, j);
    FatalSpawn(cfg, After(cfg, [BeginWatching]), i, j);
    AfterSnoc(cfg, [BeginWatching], Spawn(i));
    assert [BeginWatching] + [Spawn(i)] == [BeginWatching, Spawn(i)];
  }

  lemma FatalRegister(cfg: Config, s: State, i: nat, j: nat)
    requires OnTheWay(cfg, s, i, j, Registering) && i != j
    ensures Enabled(cfg, s, Register(i))
    ensures OnTheWay(cfg, Next(cfg, s, Register(i)), i, j, Idle(cfg.sources[i].mapType == RingBuf))
  {
  }

  lemma FatalObtain(cfg: Config, s: State, i: nat, j: nat, e: KvPair)
    requires i < |cfg.sources| && OnTheWay(cfg, s, i, j, Idle(cfg.sources[i].mapType == RingBuf)) && i != j
    ensures Enabled(cfg, s, Obtain(i, [e]))
    ensures OnTheWay(cfg, Next(cfg, s, Obtain(i, [e])), i, j, Busy([e], cfg.sources[i].mapType == RingBuf))
  {
  }

  lemma FatalMiddle(cfg: Config, schedule: seq<Step>, i: nat, j: nat, e: KvPair)
    requires OnTheWay(cfg, After(cfg, schedule), i, j, Registering) && i != j
    ensures OnTheWay(cfg, After(cfg, schedule + [Register(i)] + [Obtain(i, [e])]), i, j, Busy([e], cfg.sources[i].mapType == RingBuf))
  {
    FatalRegister(cfg, After(cfg, schedule), i, j);
    AfterSnoc(cfg, schedule, Register(i));
    FatalObtain(cfg, After(cfg, schedule + [Register(i)]), i, j, e);
    AfterSnoc(cfg, schedule + [Register(i)], Obtain(i, [e]));
  }

  lemma FatalEnd(cfg: Config, schedule: seq<Step>, i: nat, j: nat, e: KvPair, reader: bool)
    requires OnTheWay(cfg, After(cfg, schedule), i, j, Busy([e], reader)) && i != j
    requires !Supported(cfg.sources[j].mapType) && cfg.passes(EntryFor(cfg, i, e))
    ensures After(cfg, schedule + [Spawn(j)] + [Offer(i)]).panicked
  {
    AfterSnoc(cfg, schedule, Spawn(j));
    AfterSnoc(cfg, schedule + [Spawn(j)], Offer(i));
  }

  lemma UnsupportedMapPanics(cfg: Config, i: nat, j: nat, e: KvPair)
    requires i < |cfg.sources| && j < |cfg.sources|
    requires Supported(cfg.sources[i].mapType) && !Supported(cfg.sources[j].mapType)
    requires cfg.passes(EntryFor(cfg, i, e))
    ensures After(cfg, FatalSchedule(i, j, e)).panicked
  {
    var start := [BeginWatching, Spawn(i)];
    var middle := start + [Register(i)] + [Obtain(i, [e])];
    FatalStart(cfg, i, j);
    FatalMiddle(cfg, start, i, j, e);
    FatalEnd(cfg, middle, i, j, e, cfg.sources[i].mapType == RingBuf);
    assert middle + [Spawn(j)] + [Offer(i)] == FatalSchedule(i, j, e);
  }

  /** Main result: no interleaving sends on the closed channel exactly when `WatchMaps` is given only
      map types it supports, or the filter drops every entry of those it does support. */
  lemma NoSendOnClosedIff(cfg: Config)
    ensures (forall schedule :: !After(cfg, schedule).panicked) <==> AllSupported(cfg) || AllSilenced(cfg)
  {
    if AllSupported(cfg) {
      forall schedule
        ensures !After(cfg, schedule).panicked
      {
        ClosedLastAlways(cfg, schedule);
      }
    } else if AllSilenced(cfg) {
      forall schedule
        ensures !After(cfg, schedule).panicked
      {
        SilencedAlways(cfg, schedule);
      }
    } else {
      var i :| 0 <= i < |cfg.sources| && Supported(cfg.sources[i].mapType) && !Silenced(cfg, i);
      var j :| 0 <= j < |cfg.sources| && !Supported(cfg.sources[j].mapType);
      var e :| cfg.passes(EntryFor(cfg, i, e));
      UnsupportedMapPanics(cfg, i, j, e);
    }
  }

  /** The sources `WatchMaps` gets from a successful `Parse`, in some order. */
  ghost predicate FromParse(cfg: Config, watchedMaps: map<string, WatchedMap>) {
    forall i :: 0 <= i < |cfg.sources| ==>
                  var src := cfg.sources[i];
                  src.name in watchedMaps && src.mapType == watchedMaps[src.name].mapType && src.labels == watchedMaps[src.name].labels
  }

  /** Main result: what `Parse` admits is never fatal, in any interleaving. */
  lemma ParsedMapsNeverPanic(cfg: Config, maps: map<string, MapSpec>, watchedMaps: map<string, WatchedMap>, schedule: seq<Step>)
    requires FromParse(cfg, watchedMaps) && WatchesTracked(maps, watchedMaps)
    ensures AllSupported(cfg) && !After(cfg, schedule).panicked
  {
    forall i | 0 <= i < |cfg.sources|
      ensures Supported(cfg.sources[i].mapType)
    {
      assert Watchable(maps[cfg.sources[i].name]);
    }
    ClosedLastAlways(cfg, schedule);
  }

  // ---------------------------------------------------------------- failure and cancellation

  /** Nobody finishes but by failing or after a cancellation. */
  ghost predicate FinishedMeansCancelled(s: State) {
    forall i :: 0 <= i < |s.producers| && s.producers[i].Finished? ==> s.cancelled
  }

  lemma FinishedStep(cfg: Config, s: State, step: Step)
    requires FinishedMeansCancelled(s) && Enabled(cfg, s, step)
    ensures FinishedMeansCancelled(Next(cfg, s, step))
  {
  }

  /** Main result: at every reachable state, a producer that has returned, and above all one that has
      failed, has everybody cancelled. */
  lemma {:induction false} FinishedMeansCancelledAlways(cfg: Config, schedule: seq<Step>)
    ensures FinishedMeansCancelled(After(cfg, schedule))
  {
    if |schedule| > 0 {
      var init, step := schedule[..|schedule| - 1], schedule[|schedule| - 1];
      FinishedMeansCancelledAlways(cfg, init);
      if Enabled(cfg, After(cfg, init), step) {
        FinishedStep(cfg, After(cfg, init), step);
      }
    }
  }

  /** Main result: a producer that is reading or offering entries may fail at any moment, and the failure
      leaves it finished and everybody cancelled. */
  lemma FailureIsPossible(cfg: Config, schedule: seq<Step>, i: nat)
    requires AllSupported(cfg) && i < |After(cfg, schedule).producers| && After(cfg, schedule).producers[i].Busy?
    ensures var t := After(cfg, schedule + [Fail(i)]);
            t.cancelled && i < |t.producers| && t.producers[i] == Finished(true) && t.queue == After(cfg, schedule).queue
  {
    ClosedLastAlways(cfg, schedule);
    AfterSnoc(cfg, schedule, Fail(i));
  }

  /** And so may everything be cancelled from outside. */
  lemma CancellationIsPossible(cfg: Config, schedule: seq<Step>)
    requires AllSupported(cfg)
    ensures After(cfg, schedule + [Cancel]).cancelled
  {
    ClosedLastAlways(cfg, schedule);
    AfterSnoc(cfg, schedule, Cancel);
  }

  /** A ring buffer's reader is closed only by a cancellation, and only ring buffers have one. */
  ghost predicate ReadersOpen(cfg: Config, s: State) {
    && |s.producers| == |s.produced| == |cfg.sources|
    && forall i :: 0 <= i < |s.producers| ==> ReaderFits(s.producers[i], cfg.sources[i].mapType == RingBuf, s.cancelled)
  }

  predicate ReaderFits(p: Producer, isRing: bool, cancelled: bool) {
    p.Idle? || p.Busy? ==> (p.reader ==> isRing) && (isRing && !p.reader ==> cancelled)
  }

  /** What a step makes of one producer. */
  lemma ProducerStepAt(cfg: Config, s: State, step: Step, i: nat)
    requires Enabled(cfg, s, step) && i < |s.producers|
    ensures i < |Next(cfg, s, step).producers|
    ensures var p, q := s.producers[i], Next(cfg, s, step).producers[i];
            || q == p || q == Registering || q.Finished?
            || (step == Register(i) && q == Idle(cfg.sources[i].mapType == RingBuf))
            || (step.Obtain? && p.Idle? && q == Busy(step.entries, p.reader))
            || (step == Offer(i) && p.Busy? && q.Busy? && q.reader == p.reader)
            || (step == PollDone(i) && p.Busy? && q == Idle(p.reader))
            || (step == CloseReader(i) && s.cancelled && q == p.(reader := false))
  {
  }

  lemma StaysCancelled(cfg: Config, s: State, step: Step)
    requires Enabled(cfg, s, step) && s.cancelled
    ensures Next(cfg, s, step).cancelled
  {
  }

  lemma ReaderStepAt(cfg: Config, s: State, step: Step, i: nat)
    requires Enabled(cfg, s, step) && i < |s.producers|
    requires ReaderFits(s.producers[i], cfg.sources[i].mapType == RingBuf, s.cancelled)
    ensures i < |Next(cfg, s, step).producers|
    ensures ReaderFits(Next(cfg, s, step).producers[i], cfg.sources[i].mapType == RingBuf, Next(cfg, s, step).cancelled)
  {
    ProducerStepAt(cfg, s, step, i);
    if s.cancelled {
      StaysCancelled(cfg, s, step);
    }
  }

  lemma ReadersStep(cfg: Config, s: State, step: Step)
    requires ReadersOpen(cfg, s) && Enabled(cfg, s, step)
    ensures ReadersOpen(cfg, Next(cfg, s, step))
  {
    StepKeepsSizes(cfg, s, step);
    forall i | 0 <= i < |cfg.sources|
      ensures ReaderFits(Next(cfg, s, step).producers[i], cfg.sources[i].mapType == RingBuf, Next(cfg, s, step).cancelled)
    {
      ReaderStepAt(cfg, s, step, i);
    }
  }

  lemma StepKeepsSizes(cfg: Config, s: State, step: Step)
    requires Enabled(cfg, s, step)
    ensures |Next(cfg, s, step).producers| == |Next(cfg, s, step).produced| == |cfg.sources|
  {
  }

  lemma {:induction false} ReadersOpenAlways(cfg: Config, schedule: seq<Step>)
    ensures ReadersOpen(cfg, After(cfg, schedule))
  {
    if |schedule| > 0 {
      var init, step := schedule[..|schedule| - 1], schedule[|schedule| - 1];
      ReadersOpenAlways(cfg, init);
      if Enabled(cfg, After(cfg, init), step) {
        ReadersStep(cfg, After(cfg, init), step);
      }
    }
  }

  /** Main result: at every reachable state that is neither cancelled nor panicked, every idle producer can
      take an entry: any one of its map. */
  lemma IdleProducersCanRead(cfg: Config, schedule: seq<Step>, i: nat, e: KvPair)
    requires i < |After(cfg, schedule).producers| && After(cfg, schedule).producers[i].Idle?
    requires !After(cfg, schedule).cancelled && !After(cfg, schedule).panicked
    ensures Enabled(cfg, After(cfg, schedule), Obtain(i, [e]))
  {
    ReadersOpenAlways(cfg, schedule);
    var s := After(cfg, schedule);
    assert ReaderFits(s.producers[i], cfg.sources[i].mapType == RingBuf, s.cancelled);
  }

  // ---------------------------------------------------------------- conservation and order

  /** The entries of one map in a sequence, in order. */
  function LogOf(es: seq<MapEntry>, name: string): seq<KvPair> {
    if |es| == 0 then []
    else
      var log, last := LogOf(es[..|es| - 1], name), es[|es| - 1];
      if last.name == name then log + [last.entry] else log
  }

  /** The entries of a producer that pass the filter. */
  function Passing(cfg: Config, i: nat, es: seq<KvPair>): seq<KvPair>
    requires i < |cfg.sources|
  {
    if |es| == 0 then []
    else
      var rest := Passing(cfg, i, es[1..]);
      if cfg.passes(EntryFor(cfg, i, es[0])) then [es[0]] + rest else rest
  }

  lemma {:induction false} LogOfConcat(a: seq<MapEntry>, b: seq<MapEntry>, name: string)
    ensures LogOf(a + b, name) == LogOf(a, name) + LogOf(b, name)
  {
    if |b| == 0 {
      assert a + b == a;
    } else {
      LogOfConcat(a, b[..|b| - 1], name);
      assert (a + b)[..|a + b| - 1] == a + b[..|b| - 1];
    }
  }

  lemma LogOfOneMore(a: seq<MapEntry>, e: MapEntry, name: string)
    ensures LogOf(a + [e], name) == if e.name == name then LogOf(a, name) + [e.entry] else LogOf(a, name)
  {
    assert (a + [e])[..|a|] == a;
  }

  lemma {:induction false} PassingConcat(cfg: Config, i: nat, a: seq<KvPair>, b: seq<KvPair>)
    requires i < |cfg.sources|
    ensures Passing(cfg, i, a + b) == Passing(cfg, i, a) + Passing(cfg, i, b)
  {
    if |a| == 0 {
      assert a + b == b;
    } else {
      PassingConcat(cfg, i, a[1..], b);
      assert (a + b)[1..] == a[1..] + b;
    }
  }

  /** What a producer has read is what it sent followed by what it still holds; a failed producer
      abandons the rest. */
  ghost predicate Balanced(cfg: Config, i: nat, p: Producer, produced: seq<KvPair>, sent: seq<KvPair>)
    requires i < |cfg.sources|
  {
    match p
    case Busy(pending, _) => Passing(cfg, i, produced) == sent + Passing(cfg, i, pending)
    case Finished(failed) => if failed then sent <= Passing(cfg, i, produced) else Passing(cfg, i, produced) == sent
    case _ => Passing(cfg, i, produced) == sent
  }

  ghost predicate Conserved(cfg: Config, s: State) {
    && |s.producers| == |s.produced| == |cfg.sources|
    && s.sent == s.handled + s.queue
    && |s.queue| <= CAPACITY
    && forall i :: 0 <= i < |cfg.sources| ==> Balanced(cfg, i, s.producers[i], s.produced[i], LogOf(s.sent, cfg.sources[i].name))
  }

  /** What the filter lets through moves from the producer's hands to what it sent. */
  lemma OfferBalances(cfg: Config, i: nat, p: Producer, produced: seq<KvPair>, sent: seq<KvPair>)
    requires i < |cfg.sources| && p.Busy? && |p.pending| > 0 && Balanced(cfg, i, p, produced, sent)
    ensures var e := p.pending[0];
            Balanced(cfg, i, p.(pending := p.pending[1..]), produced,
                     if cfg.passes(EntryFor(cfg, i, e)) then sent + [e] else sent)
  {
  }

  lemma OfferKeepsBalanceAt(cfg: Config, s: State, i: nat, j: nat)
    requires WellFormed(cfg) && Enabled(cfg, s, Offer(i)) && j < |cfg.sources|
    requires Balanced(cfg, j, s.producers[j], s.produced[j], LogOf(s.sent, cfg.sources[j].name))
    ensures var t := Offered(cfg, s, i);
            Balanced(cfg, j, t.producers[j], t.produced[j], LogOf(t.sent, cfg.sources[j].name))
  {
    var e := EntryFor(cfg, i, s.producers[i].pending[0]);
    LogOfOneMore(s.sent, e, cfg.sources[j].name);
    if j == i {
      OfferBalances(cfg, i, s.producers[i], s.produced[i], LogOf(s.sent, cfg.sources[i].name));
    }
  }

  lemma OfferKeepsBalance(cfg: Config, s: State, i: nat)
    requires WellFormed(cfg) && Conserved(cfg, s) && Enabled(cfg, s, Offer(i))
    ensures Conserved(cfg, Offered(cfg, s, i))
  {
    var t := Offered(cfg, s, i);
    forall j | 0 <= j < |cfg.sources|
      ensures Balanced(cfg, j, t.producers[j], t.produced[j], LogOf(t.sent, cfg.sources[j].name))
    {
      OfferKeepsBalanceAt(cfg, s, i, j);
    }
    var e := EntryFor(cfg, i, s.producers[i].pending[0]);
    assert s.handled + (s.queue + [e]) == (s.handled + s.queue) + [e];
  }

  lemma OneProducerMoves(cfg: Config, s: State, t: State, i: nat)
    requires Conserved(cfg, s) && i < |cfg.sources|
    requires (t.queue, t.sent, t.handled) == (s.queue, s.sent, s.handled)
    requires |t.producers| == |t.produced| == |cfg.sources|
    requires forall j :: 0 <= j < |cfg.sources| && j != i ==> t.producers[j] == s.producers[j] && t.produced[j] == s.produced[j]
    requires Balanced(cfg, i, t.producers[i], t.produced[i], LogOf(s.sent, cfg.sources[i].name))
    ensures Conserved(cfg, t)
  {
    forall j | 0 <= j < |cfg.sources|
      ensures Balanced(cfg, j, t.producers[j], t.produced[j], LogOf(t.sent, cfg.sources[j].name))
    {
      assert Balanced(cfg, j, s.producers[j], s.produced[j], LogOf(s.sent, cfg.sources[j].name));
    }
  }

  /** A producer may take any step that leaves the channel alone. */
  lemma ProducerStepKeepsBalance(cfg: Config, s: State, step: Step)
    requires Conserved(cfg, s) && Enabled(cfg, s, step)
    requires step.Spawn? || step.Register? || step.Obtain? || step.PollDone? || step.CloseReader? || step.Stop? || step.Fail?
    ensures Conserved(cfg, Next(cfg, s, step))
  {
    var i, t := step.i, Next(cfg, s, step);
    var log := LogOf(s.sent, cfg.sources[i].name);
    assert Balanced(cfg, i, s.producers[i], s.produced[i], log);
    if step.Obtain? {
      PassingConcat(cfg, i, s.produced[i], step.entries);
    }
    assert Balanced(cfg, i, t.producers[i], t.produced[i], log);
    OneProducerMoves(cfg, s, t, i);
  }

  lemma ConservedStep(cfg: Config, s: State, step: Step)
    requires WellFormed(cfg) && Conserved(cfg, s) && Enabled(cfg, s, step)
    ensures Conserved(cfg, Next(cfg, s, step))
  {
    match step
    case LoadFails =>
    case BeginWatching =>
    case AllSpawned =>
    case Cancel =>
    case WaitOver =>
    case StopWatching =>
    case Offer(i) => OfferKeepsBalance(cfg, s, i);
    case Receive => assert s.handled + s.queue == (s.handled + [s.queue[0]]) + s.queue[1..];
    case _ => ProducerStepKeepsBalance(cfg, s, step);
  }

  lemma {:induction false} ConservedAlways(cfg: Config, schedule: seq<Step>)
    requires WellFormed(cfg)
    ensures Conserved(cfg, After(cfg, schedule))
  {
    if |schedule| > 0 {
      var init, step := schedule[..|schedule| - 1], schedule[|schedule| - 1];
      ConservedAlways(cfg, init);
      if Enabled(cfg, After(cfg, init), step) {
        ConservedStep(cfg, After(cfg, init), step);
      }
    } else {
      forall i | 0 <= i < |cfg.sources|
        ensures Balanced(cfg, i, Initial(cfg).producers[i], Initial(cfg).produced[i], LogOf([], cfg.sources[i].name))
      {
      }
    }
  }

  /** Main result: at every reachable state the queue holds at most 20 entries, and each map's passing
      entries are those handled, then those queued, then those its producer still holds, in order. */
  lemma EntriesAreConserved(cfg: Config, schedule: seq<Step>, i: nat)
    requires WellFormed(cfg) && i < |cfg.sources|
    ensures var s := After(cfg, schedule);
            var name := cfg.sources[i].name;
            && |s.queue| <= 20
            && |s.producers| == |s.produced| == |cfg.sources|
            && LogOf(s.handled, name) + LogOf(s.queue, name) <= Passing(cfg, i, s.produced[i])
            && (s.producers[i].Busy? ==>
                  Passing(cfg, i, s.produced[i])
                  == LogOf(s.handled, name) + LogOf(s.queue, name) + Passing(cfg, i, s.producers[i].pending))
            && (!s.producers[i].Busy? && s.producers[i] != Finished(true) ==>
                  Passing(cfg, i, s.produced[i]) == LogOf(s.handled, name) + LogOf(s.queue, name))
  {
    ConservedAlways(cfg, schedule);
    var s := After(cfg, schedule);
    LogOfConcat(s.handled, s.queue, cfg.sources[i].name);
    assert Balanced(cfg, i, s.producers[i], s.produced[i], LogOf(s.sent, cfg.sources[i].name));
  }

  /** Main result: at every reachable state with supported maps, a producer with an entry to send is held up
      exactly while the entry passes the filter and twenty are queued. */
  lemma SendersWaitIffFull(cfg: Config, schedule: seq<Step>, i: nat)
    requires AllSupported(cfg) && i < |After(cfg, schedule).producers|
    requires After(cfg, schedule).producers[i].Busy? && |After(cfg, schedule).producers[i].pending| > 0
    requires WellFormed(cfg)
    ensures var s := After(cfg, schedule);
            && i < |cfg.sources|
            && (Enabled(cfg, s, Offer(i)) <==> !(cfg.passes(EntryFor(cfg, i, s.producers[i].pending[0])) && |s.queue| == 20))
  {
    var s := After(cfg, schedule);
    ClosedLastAlways(cfg, schedule);
    ConservedAlways(cfg, schedule);
    assert !Quiet(s.producers[i]);
  }

  /** Without a filter every entry is let through. */
  lemma {:induction false} NoFilterDropsNothing(cfg: Config, rx: Regexes, i: nat, es: seq<KvPair>)
    requires i < |cfg.sources| && forall e :: cfg.passes(e) == Passes(rx, None, e)
    ensures Passing(cfg, i, es) == es
  {
    if |es| > 0 {
      NoFilterPassesAll(rx, EntryFor(cfg, i, es[0]));
      NoFilterDropsNothing(cfg, rx, i, es[1..]);
    }
  }

  /** Main result: without a filter, at every reachable state, all that a map's producer has read is what has
      been handled, then what is queued, then what it still holds; only a failed producer drops entries. */
  lemma NoFilterConservesAll(cfg: Config, rx: Regexes, schedule: seq<Step>, i: nat)
    requires WellFormed(cfg) && i < |cfg.sources| && forall e :: cfg.passes(e) == Passes(rx, None, e)
    ensures var s := After(cfg, schedule);
            var name := cfg.sources[i].name;
            && |s.producers| == |s.produced| == |cfg.sources|
            && (s.producers[i].Busy? ==>
                  s.produced[i] == LogOf(s.handled, name) + LogOf(s.queue, name) + s.producers[i].pending)
            && (!s.producers[i].Busy? && s.producers[i] != Finished(true) ==>
                  s.produced[i] == LogOf(s.handled, name) + LogOf(s.queue, name))
  {
    var s := After(cfg, schedule);
    EntriesAreConserved(cfg, schedule, i);
    NoFilterDropsNothing(cfg, rx, i, s.produced[i]);
    if s.producers[i].Busy? {
      NoFilterDropsNothing(cfg, rx, i, s.producers[i].pending);
    }
  }
}
