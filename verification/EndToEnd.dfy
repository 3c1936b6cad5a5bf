/** From `tcp_v4_connect` to the exported counters: the tcpconnect probe, the loader's two readers
    and the two Prometheus counters, interleaved step by step in any order. */
module EndToEnd {
  import opened Outcomes
  import opened Words
  import opened Labelling
  import opened Stats
  import opened Loading
  import opened Sockets
  import opened PairKeys
  import TcpConnect

  // ---------------------------------------------------------------- the whole system

  /** A probe runs, the ring-buffer reader handles its next record, or the poll in progress reaches
      one key and reads its current value. */
  datatype Step = Kernel(e: TcpConnect.Event) | ReadRing | PollKey(d: Dimensions)

  /** The user-space side: ring records consumed, both instruments, and whether it still runs. */
  datatype Process = Process(consumed: nat, counter: View, ring: IncrementView, alive: bool)

  function Started(c: Config): Process {
    Process(0, CounterView(c.hash, NAMES, NO_SERIES), CountView(NAMES, map[]), true)
  }

  /** The loader's poll when it reaches `d` in the kernel's map. */
  ghost function PollOf(c: Config, k: TcpConnect.State, p: Process, d: Dimensions): PollState
    requires d in k.eventsHash
  {
    Poll(ReadingOf(c), p.counter, [EntryOf(c, d, k.eventsHash[d])])
  }

  /** User space only reads the kernel's maps, which are in state `k`. */
  ghost function Next(c: Config, k: TcpConnect.State, p: Process, step: Step): Process {
    match step
    case Kernel(_) => p
    case ReadRing =>
      if !p.alive || p.consumed >= |k.eventsRing| then p
      else
        var r := OneRecord(c.formats, c.order, DIMENSIONS, RingState(p.ring, Ok(()), []), KeyBytes(c.order, k.eventsRing[p.consumed]));
        p.(consumed := p.consumed + 1, ring := r.view, alive := r.outcome.Ok?)
    case PollKey(d) =>
      if !p.alive || d !in k.eventsHash then p
      else p.(counter := PollOf(c, k, p, d).view, alive := PollOf(c, k, p, d).outcome.Ok?)
  }

  /** The kernel events of a run. */
  ghost function Events(steps: seq<Step>): seq<TcpConnect.Event> {
    if |steps| == 0 then []
    else
      var init, last := Events(steps[..|steps| - 1]), steps[|steps| - 1];
      if last.Kernel? then init + [last.e] else init
  }

  /** The kernel's maps after a run. */
  ghost function Maps(steps: seq<Step>): TcpConnect.State {
    TcpConnect.After(Events(steps))
  }

  ghost function Run(c: Config, steps: seq<Step>): Process {
    if |steps| == 0 then Started(c)
    else
      var init := steps[..|steps| - 1];
      Next(c, Maps(init), Run(c, init), steps[|steps| - 1])
  }

  /** The number of matched connects for `d` when a poll last read its entry. */
  ghost function Polled(steps: seq<Step>, d: Dimensions): nat {
    if |steps| == 0 then 0
    else
      var init, last := steps[..|steps| - 1], steps[|steps| - 1];
      if last == PollKey(d) && d in Maps(init).eventsHash then TcpConnect.Matched(Events(init), d)
      else Polled(init, d)
  }

  /** Between two polls of a key fewer than 2^63 of its connects are matched. */
  ghost predicate PollsKeepUp(steps: seq<Step>) {
    |steps| > 0 ==>
      var init, last := steps[..|steps| - 1], steps[|steps| - 1];
      && PollsKeepUp(init)
      && (last.PollKey? ==> TcpConnect.Matched(Events(init), last.d) < Polled(init, last.d) + TWO_63)
  }

  /** The hash does not collide on the address pairs of the run. */
  ghost predicate CollisionFreeOn(c: Config, pairs: set<Dimensions>) {
    forall a, b :: a in pairs && b in pairs && c.hash(LabelsOf(c, a)) == c.hash(LabelsOf(c, b)) ==> a == b
  }

  /** One more step, seen from the kernel. */
  lemma EventsStep(steps: seq<Step>)
    requires |steps| > 0
    ensures var init, last := steps[..|steps| - 1], steps[|steps| - 1];
            && (last.Kernel? ==> Events(steps) == Events(init) + [last.e] && Maps(steps) == TcpConnect.Next(Maps(init), last.e))
            && (!last.Kernel? ==> Events(steps) == Events(init))
            && Maps(init).eventsHash.Keys <= Maps(steps).eventsHash.Keys
            && TcpConnect.Seen(Events(init)) <= TcpConnect.Seen(Events(steps))
            && Maps(init).eventsRing <= Maps(steps).eventsRing
  {
    var init, last := steps[..|steps| - 1], steps[|steps| - 1];
    if last.Kernel? {
      assert Events(steps)[..|Events(init)|] == Events(init);
    }
  }

  lemma {:induction false} PolledAtMostMatched(steps: seq<Step>, d: Dimensions)
    ensures Polled(steps, d) <= TcpConnect.Matched(Events(steps), d)
    ensures d !in Maps(steps).eventsHash ==> Polled(steps, d) == 0
  {
    if |steps| > 0 {
      var init, last := steps[..|steps| - 1], steps[|steps| - 1];
      PolledAtMostMatched(init, d);
      EventsStep(steps);
      if last.Kernel? {
        assert Events(steps)[..|Events(init)|] == Events(init);
      }
    }
  }

  /** The instruments are the ones registered for the two maps. */
  ghost predicate SetUp(c: Config, p: Process) {
    && p.counter.CounterView? && p.counter.hash == c.hash && p.counter.names == NAMES
    && p.ring.CountView? && p.ring.names == NAMES
  }

  /** One poll of one key, seen from the counter and from the watcher. */
  lemma PollKeySets(c: Config, k: TcpConnect.State, p: Process, d: Dimensions)
    requires SetUp(c, p) && p.alive && d in k.eventsHash
    ensures var r := SetNext(c.hash, NAMES, p.counter.state, ToS64(k.eventsHash[d]), LabelsOf(c, d));
            && Next(c, k, p, PollKey(d)) == p.(counter := CounterView(c.hash, NAMES, r.state), alive := r.alive)
            && PollOf(c, k, p, d).sent == if r.alive then [KvPair(LabelsOf(c, d), Decimal(k.eventsHash[d]))] else []
  {
    EntryReads(c, d, k.eventsHash[d]);
    PollOne(ReadingOf(c), p.counter, EntryOf(c, d, k.eventsHash[d]));
  }

  /** One record, seen from the ring counter. */
  lemma ReadRingIncrements(c: Config, k: TcpConnect.State, p: Process)
    requires SetUp(c, p)
    ensures var q := Next(c, k, p, ReadRing);
            && q.alive == p.alive && q.counter == p.counter
            && (if !p.alive || p.consumed >= |k.eventsRing| then q == p
                else q.consumed == p.consumed + 1
                     && q.ring == CountView(NAMES, Incremented(p.ring.series, LabelsOf(c, k.eventsRing[p.consumed]))))
  {
    if p.alive && p.consumed < |k.eventsRing| {
      KeyDecodes(c, k.eventsRing[p.consumed]);
    }
  }

  lemma {:induction false} RunIsSetUp(c: Config, steps: seq<Step>)
    ensures SetUp(c, Run(c, steps))
  {
    if |steps| > 0 {
      var init, last := steps[..|steps| - 1], steps[|steps| - 1];
      RunIsSetUp(c, init);
      ReadRingIncrements(c, Maps(init), Run(c, init));
      if last.PollKey? && Run(c, init).alive && last.d in Maps(init).eventsHash {
        PollKeySets(c, Maps(init), Run(c, init), last.d);
      }
    }
  }

  /** The counter stands for `total` on the pair's label set. */
  ghost predicate Follows(c: Config, v: View, d: Dimensions, total: int) {
    v.CounterView? && v.hash == c.hash && v.names == NAMES && Tracks(v.state, c.hash, LabelsOf(c, d), total)
  }

  lemma SameWord(n: int)
    ensures ToS64(ToU64(n)) == ToS64(n)
  {
    SumsWrap(n, 0);
  }

  lemma {:induction false} HashCounterFollows(c: Config, steps: seq<Step>, pairs: set<Dimensions>, q: Dimensions)
    requires CollisionFreeOn(c, pairs) && PollsKeepUp(steps)
    requires TcpConnect.Seen(Events(steps)) <= pairs && q in pairs
    ensures Run(c, steps).alive
    ensures Follows(c, Run(c, steps).counter, q, Polled(steps, q))
  {
    if |steps| > 0 {
      var init, last := steps[..|steps| - 1], steps[|steps| - 1];
      EventsStep(steps);
      RunIsSetUp(c, init);
      HashCounterFollows(c, init, pairs, q);
      match last {
        case Kernel(_) =>
        case ReadRing => ReadRingIncrements(c, Maps(init), Run(c, init));
        case PollKey(d) =>
          if d in Maps(init).eventsHash {
            PollReadsCount(c, init, d);
            HashCounterFollows(c, init, pairs, d);
            PollMovesOneTotal(c, Run(c, init).counter.state, d, q, Polled(init, d), Polled(init, q),
                              TcpConnect.Matched(Events(init), d));
          }
      }
    }
  }

  lemma PollMovesOneTotal(c: Config, s: CounterState, d: Dimensions, q: Dimensions, totalD: int, totalQ: int, count: int)
    requires c.hash(LabelsOf(c, d)) == c.hash(LabelsOf(c, q)) ==> d == q
    requires Tracks(s, c.hash, LabelsOf(c, d), totalD) && Tracks(s, c.hash, LabelsOf(c, q), totalQ)
    requires totalD <= count < totalD + TWO_63
    ensures var r := SetNext(c.hash, NAMES, s, ToS64(count), LabelsOf(c, d));
            r.alive && Tracks(r.state, c.hash, LabelsOf(c, q), if q == d then count else totalQ)
  {
    KeyDecodes(c, d);
    SetFollowsTotal(c.hash, NAMES, s, LabelsOf(c, d), totalD, count);
    if q != d {
      SetLeavesOthers(c.hash, NAMES, s, LabelsOf(c, d), ToS64(count), LabelsOf(c, q), totalQ);
    }
  }

  lemma {:induction false} AliveWhileNothingSeen(c: Config, steps: seq<Step>)
    requires TcpConnect.Seen(Events(steps)) == {}
    ensures Run(c, steps).alive
  {
    if |steps| > 0 {
      var init := steps[..|steps| - 1];
      EventsStep(steps);
      AliveWhileNothingSeen(c, init);
      RunIsSetUp(c, init);
      TcpConnect.HashIsCompleteIffItFits(Events(init));
      ReadRingIncrements(c, Maps(init), Run(c, init));
    }
  }

  /** Main result: in every interleaving the process survives, and the hash counter of each seen
      pair stands for the matched connects at its last poll. */
  lemma HashCounterFollowsPolls(c: Config, steps: seq<Step>)
    requires CollisionFreeOn(c, TcpConnect.Seen(Events(steps))) && PollsKeepUp(steps)
    ensures Run(c, steps).alive
    ensures forall d :: d in TcpConnect.Seen(Events(steps)) ==>
                          Follows(c, Run(c, steps).counter, d, Polled(steps, d))
  {
    var pairs := TcpConnect.Seen(Events(steps));
    if pairs == {} {
      AliveWhileNothingSeen(c, steps);
    } else {
      var d :| d in pairs;
      HashCounterFollows(c, steps, pairs, d);
    }
    forall d | d in pairs
      ensures Follows(c, Run(c, steps).counter, d, Polled(steps, d))
    {
      HashCounterFollows(c, steps, pairs, d);
    }
  }

  /** A poll sets the counter to the word of the matched connects. */
  lemma PollReadsCount(c: Config, init: seq<Step>, d: Dimensions)
    requires Run(c, init).alive && d in Maps(init).eventsHash
    ensures var count := TcpConnect.Matched(Events(init), d);
            var p := Run(c, init);
            && SetUp(c, p)
            && var r := SetNext(c.hash, NAMES, p.counter.state, ToS64(count), LabelsOf(c, d));
            && Next(c, Maps(init), p, PollKey(d)) == p.(counter := CounterView(c.hash, NAMES, r.state), alive := r.alive)
            && d in TcpConnect.Seen(Events(init))
            && Polled(init, d) <= count
  {
    RunIsSetUp(c, init);
    TcpConnect.HashCountIsExact(Events(init), d);
    TcpConnect.SeenMeansMatched(Events(init), d);
    PolledAtMostMatched(init, d);
    PollKeySets(c, Maps(init), Run(c, init), d);
    SameWord(TcpConnect.Matched(Events(init), d));
  }

  /** The exported values of the two counters. */
  function HashSeries(p: Process, l: Labels): int {
    SeriesValue(SeriesOf(p.counter), l)
  }

  function RingSeries(p: Process, l: Labels): int {
    if p.ring.CountView? then SeriesValue(p.ring.series, l) else 0
  }

  /** Main result: in every interleaving the ring counter of each pair is the number of its records
      consumed. */
  lemma {:induction false} RingCounterFollowsRecords(c: Config, steps: seq<Step>, d: Dimensions)
    ensures var p, records := Run(c, steps), Maps(steps).eventsRing;
            && p.consumed <= |records|
            && RingSeries(p, LabelsOf(c, d)) == multiset(records[..p.consumed])[d]
  {
    if |steps| > 0 {
      var init, last := steps[..|steps| - 1], steps[|steps| - 1];
      RingCounterFollowsRecords(c, init, d);
      RunIsSetUp(c, init);
      EventsStep(steps);
      match last {
        case Kernel(_) =>
          assert Maps(steps).eventsRing[..Run(c, init).consumed] == Maps(init).eventsRing[..Run(c, init).consumed];
        case ReadRing =>
          ReadRingIncrements(c, Maps(init), Run(c, init));
          RecordKeepsCount(c, Maps(init).eventsRing, Run(c, init), Run(c, steps), d);
        case PollKey(_) =>
      }
    }
  }

  lemma RecordKeepsCount(c: Config, records: seq<Dimensions>, p: Process, q: Process, d: Dimensions)
    requires p.consumed <= |records|
    requires RingSeries(p, LabelsOf(c, d)) == multiset(records[..p.consumed])[d]
    requires if !p.alive || p.consumed >= |records| then q == p
             else p.ring.CountView? && q.consumed == p.consumed + 1
                  && q.ring == CountView(NAMES, Incremented(p.ring.series, LabelsOf(c, records[p.consumed])))
    ensures q.consumed <= |records| && RingSeries(q, LabelsOf(c, d)) == multiset(records[..q.consumed])[d]
  {
    if p.alive && p.consumed < |records| {
      IncrementCounts(c, p.ring.series, records, p.consumed, d);
    }
  }

  lemma IncrementCounts(c: Config, ring: map<Labels, int>, records: seq<Dimensions>, n: nat, d: Dimensions)
    requires n < |records|
    ensures var l := LabelsOf(c, d);
            var more := Incremented(ring, LabelsOf(c, records[n]));
            SeriesValue(more, l) + multiset(records[..n])[d] == SeriesValue(ring, l) + multiset(records[..n + 1])[d]
  {
    assert records[..n + 1] == records[..n] + [records[n]];
    if LabelsOf(c, d) == LabelsOf(c, records[n]) {
      LabelsInjective(c, d, records[n]);
    }
  }

  // ---------------------------------------------------------------- after a complete poll

  /** A run followed by a poll that reaches `keys` one after the other. */
  ghost function WithPolls(steps: seq<Step>, keys: seq<Dimensions>): seq<Step> {
    if |keys| == 0 then steps else WithPolls(steps, keys[..|keys| - 1]) + [PollKey(keys[|keys| - 1])]
  }

  lemma OnePoll(c: Config, steps: seq<Step>, k: Dimensions, d: Dimensions)
    ensures var run := steps + [PollKey(k)];
            && Events(run) == Events(steps)
            && Run(c, run).consumed == Run(c, steps).consumed
            && Polled(run, d) == if k == d && d in Maps(steps).eventsHash then TcpConnect.Matched(Events(steps), d) else Polled(steps, d)
  {
    var run := steps + [PollKey(k)];
    assert run[..|run| - 1] == steps;
  }

  lemma {:induction false} PollsCatchUp(c: Config, steps: seq<Step>, keys: seq<Dimensions>, d: Dimensions)
    ensures var run := WithPolls(steps, keys);
            && Events(run) == Events(steps)
            && Run(c, run).consumed == Run(c, steps).consumed
            && (d in keys && d in Maps(steps).eventsHash ==> Polled(run, d) == TcpConnect.Matched(Events(steps), d))
  {
    if |keys| > 0 {
      var init, last := keys[..|keys| - 1], keys[|keys| - 1];
      PollsCatchUp(c, steps, init, d);
      OnePoll(c, WithPolls(steps, init), last, d);
      assert d in keys ==> d == last || d in init;
    }
  }

  /** The process has drained the ring buffer and is about to poll every key, in any order. */
  ghost predicate CaughtUp(c: Config, steps: seq<Step>, keys: seq<Dimensions>) {
    && Run(c, steps).consumed == |Maps(steps).eventsRing|
    && forall d :: d in Maps(steps).eventsHash ==> d in keys
  }

  /** Main result: once the process has caught up, the hash counter of a seen pair is its number of
      matched connects (zero if the map was full), and the ring counter is that number less the
      records the ring buffer had no room for. */
  lemma ExportedCounts(c: Config, steps: seq<Step>, keys: seq<Dimensions>, d: Dimensions)
    requires CaughtUp(c, steps, keys) && PollsKeepUp(WithPolls(steps, keys))
    requires CollisionFreeOn(c, TcpConnect.Seen(Events(steps))) && d in TcpConnect.Seen(Events(steps))
    ensures var p, es := Run(c, WithPolls(steps, keys)), Events(steps);
            && p.alive
            && HashSeries(p, LabelsOf(c, d)) == (if d in Maps(steps).eventsHash then TcpConnect.Matched(es, d) else 0)
            && RingSeries(p, LabelsOf(c, d)) == TcpConnect.Matched(es, d) - TcpConnect.Unreserved(es, d)
  {
    var run := WithPolls(steps, keys);
    PollsCatchUp(c, steps, keys, d);
    HashCounterFollowsPolls(c, run);
    PolledAtMostMatched(run, d);
    RingCounterFollowsRecords(c, run, d);
    assert Maps(run).eventsRing[..Run(c, run).consumed] == Maps(steps).eventsRing;
    TcpConnect.RingRecordsAreExact(Events(steps), d);
  }

  /** Main result: both counters equal the number of matched connects for every seen pair exactly
      when no more than 8192 pairs were seen and the ring buffer had room for every record. */
  lemma CountersAgreeIffNothingWasDropped(c: Config, steps: seq<Step>, keys: seq<Dimensions>)
    requires CaughtUp(c, steps, keys) && PollsKeepUp(WithPolls(steps, keys))
    requires CollisionFreeOn(c, TcpConnect.Seen(Events(steps)))
    ensures var p, es := Run(c, WithPolls(steps, keys)), Events(steps);
            (forall d :: d in TcpConnect.Seen(es) ==>
               HashSeries(p, LabelsOf(c, d)) == RingSeries(p, LabelsOf(c, d)) == TcpConnect.Matched(es, d))
            <==> |TcpConnect.Seen(es)| <= 8192
                 && forall d :: d in TcpConnect.Seen(es) ==> TcpConnect.Unreserved(es, d) == 0
  {
    var es := Events(steps);
    forall d | d in TcpConnect.Seen(es)
      ensures var p := Run(c, WithPolls(steps, keys));
              HashSeries(p, LabelsOf(c, d)) == RingSeries(p, LabelsOf(c, d)) == TcpConnect.Matched(es, d)
              <==> d in Maps(steps).eventsHash && TcpConnect.Unreserved(es, d) == 0
    {
      ExportedCounts(c, steps, keys, d);
      TcpConnect.SeenMeansMatched(es, d);
    }
    TcpConnect.HashIsCompleteIffItFits(es);
  }

  /** Main result: with nothing dropped anywhere, both exported counters are the completed connects
      of the pair, counted from the calls and returns alone. */
  lemma CountersEqualCompletedConnects(c: Config, steps: seq<Step>, keys: seq<Dimensions>, d: Dimensions)
    requires CaughtUp(c, steps, keys) && PollsKeepUp(WithPolls(steps, keys))
    requires CollisionFreeOn(c, TcpConnect.Seen(Events(steps))) && d in TcpConnect.Seen(Events(steps))
    requires TcpConnect.ThreadsAlwaysFit(Events(steps))
    requires |TcpConnect.Seen(Events(steps))| <= 8192 && TcpConnect.Unreserved(Events(steps), d) == 0
    ensures var p := Run(c, WithPolls(steps, keys));
            HashSeries(p, LabelsOf(c, d)) == RingSeries(p, LabelsOf(c, d)) == TcpConnect.Completed(Events(steps), d)
  {
    ExportedCounts(c, steps, keys, d);
    TcpConnect.HashIsCompleteIffItFits(Events(steps));
    TcpConnect.MatchedCountsCompleted(Events(steps), d);
  }
}
