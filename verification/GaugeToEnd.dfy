/** From `tcp_v4_connect` and `tcp_close` to the exported gauge: the activeconn probe and the loader's
    poll of `sockets_ext`, interleaved step by step in any order. */
module GaugeToEnd {
  import opened Outcomes
  import opened Words
  import opened Sockets
  import opened Loading
  import opened PairKeys
  import ActiveConn

  /** A probe runs, or the poll in progress reaches one key and reads its current word. */
  datatype Step = Kernel(e: ActiveConn.Event) | PollKey(d: Dimensions)

  /** The user-space side: the gauge, and whether the process still runs. */
  datatype Process = Process(gauge: View, alive: bool)

  const STARTED := Process(GaugeView(NAMES, map[]), true)

  /** User space only reads the kernel's maps, which are in state `k`. */
  ghost function Next(c: Config, k: ActiveConn.State, p: Process, step: Step): Process {
    if step.Kernel? || !p.alive || step.d !in k.socketsExt then p
    else
      var polled := Poll(ReadingOf(c), p.gauge, [EntryOf(c, step.d, k.socketsExt[step.d])]);
      Process(polled.view, polled.outcome.Ok?)
  }

  ghost function Events(steps: seq<Step>): seq<ActiveConn.Event> {
    if |steps| == 0 then []
    else
      var init, last := Events(steps[..|steps| - 1]), steps[|steps| - 1];
      if last.Kernel? then init + [last.e] else init
  }

  ghost function Maps(steps: seq<Step>): ActiveConn.State {
    ActiveConn.After(Events(steps))
  }

  ghost function Run(c: Config, steps: seq<Step>): Process {
    if |steps| == 0 then STARTED
    else
      var init := steps[..|steps| - 1];
      Next(c, Maps(init), Run(c, init), steps[|steps| - 1])
  }

  /** The kernel events up to the last poll that found `d`. */
  ghost function LastPoll(steps: seq<Step>, d: Dimensions): Option<seq<ActiveConn.Event>> {
    if |steps| == 0 then None
    else
      var init, last := steps[..|steps| - 1], steps[|steps| - 1];
      if last == PollKey(d) && d in Maps(init).socketsExt then Some(Events(init)) else LastPoll(init, d)
  }

  /** The gauge shows the word `d` had when last polled, and nothing for a pair never found. */
  ghost predicate ShowsWord(c: Config, v: View, d: Dimensions, polled: Option<seq<ActiveConn.Event>>) {
    && v.GaugeView? && v.gaugeNames == NAMES
    && match polled
       case None => LabelsOf(c, d) !in v.gauge
       case Some(es) =>
         && d in ActiveConn.After(es).socketsExt
         && LabelsOf(c, d) in v.gauge && v.gauge[LabelsOf(c, d)] == ToS64(ActiveConn.After(es).socketsExt[d])
  }

  /** One poll of one key, seen from the gauge. */
  lemma PollSetsGauge(c: Config, v: View, d: Dimensions, word: U64)
    requires v.GaugeView? && v.gaugeNames == NAMES
    ensures var p := Poll(ReadingOf(c), v, [EntryOf(c, d, word)]);
            p.outcome.Ok? && p.view == v.(gauge := v.gauge[LabelsOf(c, d) := ToS64(word)])
  {
    EntryReads(c, d, word);
    KeyDecodes(c, d);
    PollOne(ReadingOf(c), v, EntryOf(c, d, word));
  }

  lemma PollStepShows(c: Config, v: View, polledKey: Dimensions, word: U64, d: Dimensions,
                      es: seq<ActiveConn.Event>, polled: Option<seq<ActiveConn.Event>>)
    requires ShowsWord(c, v, d, polled)
    requires polledKey in ActiveConn.After(es).socketsExt && word == ActiveConn.After(es).socketsExt[polledKey]
    ensures var p := Poll(ReadingOf(c), v, [EntryOf(c, polledKey, word)]);
            p.outcome.Ok? && ShowsWord(c, p.view, d, if d == polledKey then Some(es) else polled)
  {
    PollSetsGauge(c, v, polledKey, word);
    if LabelsOf(c, d) == LabelsOf(c, polledKey) {
      LabelsInjective(c, d, polledKey);
    }
  }

  /** Main result: in every interleaving the process survives, and the gauge of each pair is the signed
      reading of the word at its last poll. */
  lemma {:induction false} GaugeShowsLastPoll(c: Config, steps: seq<Step>, d: Dimensions)
    ensures Run(c, steps).alive && ShowsWord(c, Run(c, steps).gauge, d, LastPoll(steps, d))
  {
    if |steps| > 0 {
      var init, last := steps[..|steps| - 1], steps[|steps| - 1];
      GaugeShowsLastPoll(c, init, d);
      if last.PollKey? && last.d in Maps(init).socketsExt {
        PollStepShows(c, Run(c, init).gauge, last.d, Maps(init).socketsExt[last.d], d, Events(init), LastPoll(init, d));
      }
    }
  }

  /** Main result: the exported gauge is opens minus closes, as of its last poll, exactly when an open was
      recorded first and the difference fits a signed word. */
  lemma GaugeIsNetIffOpenedFirst(c: Config, steps: seq<Step>, d: Dimensions)
    requires LastPoll(steps, d).Some?
    ensures var es, v := LastPoll(steps, d).value, Run(c, steps).gauge;
            && Run(c, steps).alive && v.GaugeView? && LabelsOf(c, d) in v.gauge
            && ActiveConn.FirstOp(es, d).Some?
            && (v.gauge[LabelsOf(c, d)] == ActiveConn.Net(es, d)
                <==> ActiveConn.FirstOp(es, d).value == 1 && -TWO_63 <= ActiveConn.Net(es, d) < TWO_63)
  {
    GaugeShowsLastPoll(c, steps, d);
    ActiveConn.ExportedIsNetIffItFits(LastPoll(steps, d).value, d);
  }

  /** Main result: judged by the calls alone. While the threads fit, the gauge is opens minus closes
      exactly when the pair's first call was an open and the difference fits a signed word. */
  lemma GaugeIsTrueNetIffOpenedFirst(c: Config, steps: seq<Step>, d: Dimensions)
    requires LastPoll(steps, d).Some? && ActiveConn.ThreadsAlwaysFit(LastPoll(steps, d).value)
    ensures var es, v := LastPoll(steps, d).value, Run(c, steps).gauge;
            && Run(c, steps).alive && v.GaugeView? && LabelsOf(c, d) in v.gauge
            && ActiveConn.TrueFirstOp(es, d).Some?
            && (v.gauge[LabelsOf(c, d)] == ActiveConn.TrueNet(es, d)
                <==> ActiveConn.TrueFirstOp(es, d).value == 1 && -TWO_63 <= ActiveConn.TrueNet(es, d) < TWO_63)
  {
    GaugeIsNetIffOpenedFirst(c, steps, d);
    ActiveConn.RecordedCallsAreAll(LastPoll(steps, d).value, d);
  }
}
