/** The tables at every moment of a run: each shows exactly the entries of its map that the consumer
    has taken off the channel. */
module Display {
  import opened Loading
  import opened Filters
  import opened Tables
  import opened Lifecycle

  /** The producer has called `NewRingBuf` or `NewHashMap`. */
  predicate HasRegistered(p: Producer) {
    p.Idle? || p.Busy? || p.Finished?
  }

  ghost predicate ShowsLog(cfg: Config, s: State, name: string)
    requires name in s.ui
  {
    var v := s.ui[name];
    v.mapType in {Hash, RingBuf} && Shows(v) && v.entries == RowsFor(cfg.hash, v.mapType, LogOf(s.handled, name))
  }

  ghost predicate RegisteredAs(cfg: Config, s: State, i: nat)
    requires i < |cfg.sources|
  {
    var src := cfg.sources[i];
    src.name in s.ui && s.ui[src.name].mapType == ShownAs(src.mapType) && s.ui[src.name].keys == SortStrings(src.labels)
  }

  ghost predicate InStep(cfg: Config, s: State) {
    && |s.producers| == |cfg.sources|
    && (forall k :: 0 <= k < |s.sent| ==> s.sent[k].name in s.ui)
    && (forall name :: name in s.ui ==> ShowsLog(cfg, s, name))
    && (forall i :: 0 <= i < |cfg.sources| && HasRegistered(s.producers[i]) ==> RegisteredAs(cfg, s, i))
    && (forall i :: 0 <= i < |cfg.sources| && !HasRegistered(s.producers[i]) ==> cfg.sources[i].name !in s.ui)
  }

  lemma {:induction false} NoEntriesNoLog(es: seq<MapEntry>, name: string)
    requires forall k :: 0 <= k < |es| ==> es[k].name != name
    ensures LogOf(es, name) == []
  {
    if |es| > 0 {
      NoEntriesNoLog(es[..|es| - 1], name);
    }
  }

  lemma NothingHandledYet(cfg: Config, s: State, i: nat)
    requires InStep(cfg, s) && s.sent == s.handled + s.queue && i < |cfg.sources| && !HasRegistered(s.producers[i])
    ensures LogOf(s.handled, cfg.sources[i].name) == []
  {
    var name := cfg.sources[i].name;
    forall k | 0 <= k < |s.handled|
      ensures s.handled[k].name != name
    {
      assert s.handled[k] == s.sent[k];
    }
    NoEntriesNoLog(s.handled, name);
  }

  lemma FreshTableShows(cfg: Config, t: State, name: string)
    requires name in t.ui && t.ui[name].entries == [] && t.ui[name].table == map[] && t.ui[name].mapType in {Hash, RingBuf}
    requires LogOf(t.handled, name) == []
    ensures ShowsLog(cfg, t, name)
  {
  }

  lemma RegisterStaysInStep(cfg: Config, s: State, i: nat)
    requires WellFormed(cfg) && InStep(cfg, s) && Conserved(cfg, s) && Enabled(cfg, s, Register(i))
    ensures InStep(cfg, Next(cfg, s, Register(i)))
  {
    var src := cfg.sources[i];
    NothingHandledYet(cfg, s, i);
    NewTableStaysInStep(cfg, s, Next(cfg, s, Register(i)), i,
                        MapValue([], map[], |s.ui|, ShownAs(src.mapType), SortStrings(src.labels)));
  }

  lemma NewTableStaysInStep(cfg: Config, s: State, t: State, i: nat, v: MapValue)
    requires WellFormed(cfg) && InStep(cfg, s) && i < |cfg.sources|
    requires t.ui == s.ui[cfg.sources[i].name := v] && t.sent == s.sent && t.handled == s.handled
    requires v.entries == [] && v.table == map[] && v.mapType == ShownAs(cfg.sources[i].mapType)
    requires v.keys == SortStrings(cfg.sources[i].labels)
    requires LogOf(s.handled, cfg.sources[i].name) == []
    requires |t.producers| == |cfg.sources| && HasRegistered(t.producers[i])
    requires forall j :: 0 <= j < |cfg.sources| && j != i ==> t.producers[j] == s.producers[j]
    ensures InStep(cfg, t)
  {
    var name := cfg.sources[i].name;
    FreshTableShows(cfg, t, name);
    forall other | other in t.ui && other != name
      ensures ShowsLog(cfg, t, other)
    {
      assert ShowsLog(cfg, s, other);
    }
    forall j | 0 <= j < |cfg.sources| && j != i
      ensures HasRegistered(t.producers[j]) ==> RegisteredAs(cfg, t, j)
      ensures !HasRegistered(t.producers[j]) ==> cfg.sources[j].name !in t.ui
    {
      assert cfg.sources[j].name != name;
      assert HasRegistered(s.producers[j]) ==> RegisteredAs(cfg, s, j);
    }
  }

  lemma ReceivedIsNext(cfg: Config, s: State)
    requires InStep(cfg, s) && Conserved(cfg, s) && Enabled(cfg, s, Receive)
    ensures s.queue[0].name in s.ui && ShowsLog(cfg, s, s.queue[0].name)
  {
    assert s.queue[0] == s.sent[|s.handled|];
  }

  /** Handling the entry keeps every table in step with its log. */
  lemma ReceivedShows(cfg: Config, s: State, e: MapEntry, t: State, name: string)
    requires e.name in s.ui && ShowsLog(cfg, s, e.name)
    requires t.ui == Handled(cfg.hash, s.ui, e) && t.handled == s.handled + [e]
    requires name in s.ui && ShowsLog(cfg, s, name)
    ensures name in t.ui && ShowsLog(cfg, t, name)
    ensures t.ui[name].mapType == s.ui[name].mapType && t.ui[name].keys == s.ui[name].keys
    ensures t.ui.Keys == s.ui.Keys
  {
    HandledKeepsUp(cfg.hash, s.ui, e, LogOf(s.handled, e.name));
    LogOfOneMore(s.handled, e, name);
  }

  lemma ReceiveStaysInStep(cfg: Config, s: State)
    requires InStep(cfg, s) && Conserved(cfg, s) && Enabled(cfg, s, Receive)
    ensures InStep(cfg, Next(cfg, s, Receive))
  {
    var t, e := Next(cfg, s, Receive), s.queue[0];
    ReceivedIsNext(cfg, s);
    forall name | name in s.ui
      ensures name in t.ui && ShowsLog(cfg, t, name)
      ensures t.ui[name].mapType == s.ui[name].mapType && t.ui[name].keys == s.ui[name].keys
      ensures t.ui.Keys == s.ui.Keys
    {
      assert ShowsLog(cfg, s, name);
      ReceivedShows(cfg, s, e, t, name);
    }
    forall i | 0 <= i < |cfg.sources|
      ensures HasRegistered(t.producers[i]) ==> RegisteredAs(cfg, t, i)
    {
      assert HasRegistered(s.producers[i]) ==> RegisteredAs(cfg, s, i);
    }
  }

  lemma SameInterfaceStaysInStep(cfg: Config, s: State, t: State)
    requires InStep(cfg, s) && t.ui == s.ui && t.handled == s.handled && |t.producers| == |cfg.sources|
    requires forall k :: 0 <= k < |t.sent| ==> t.sent[k].name in s.ui
    requires forall i :: 0 <= i < |cfg.sources| ==> HasRegistered(t.producers[i]) == HasRegistered(s.producers[i])
    ensures InStep(cfg, t)
  {
    forall name | name in t.ui
      ensures ShowsLog(cfg, t, name)
    {
      assert ShowsLog(cfg, s, name);
    }
    forall i | 0 <= i < |cfg.sources|
      ensures HasRegistered(t.producers[i]) ==> RegisteredAs(cfg, t, i)
    {
      assert HasRegistered(s.producers[i]) ==> RegisteredAs(cfg, s, i);
    }
  }

  lemma StepKeepsInterface(cfg: Config, s: State, step: Step)
    requires Enabled(cfg, s, step) && !step.Register? && !step.Receive?
    ensures var t := Next(cfg, s, step);
            t.ui == s.ui && t.handled == s.handled
  {
    match step
    case Offer(_) =>
    case Spawn(_) =>
    case _ =>
  }

  lemma OneMoveKeepsRegistrations(ps: seq<Producer>, i: nat, p: Producer)
    requires i < |ps| && HasRegistered(p) == HasRegistered(ps[i])
    ensures forall j :: 0 <= j < |ps| ==> HasRegistered(ps[i := p][j]) == HasRegistered(ps[j])
  {
  }

  predicate MovesProducer(step: Step) {
    step.Spawn? || step.Obtain? || step.Offer? || step.PollDone? || step.CloseReader? || step.Stop? || step.Fail?
  }

  lemma ProducerMoved(cfg: Config, s: State, step: Step) returns (p: Producer)
    requires Enabled(cfg, s, step) && MovesProducer(step)
    ensures step.i < |s.producers| && HasRegistered(p) == HasRegistered(s.producers[step.i])
    ensures Next(cfg, s, step).producers == s.producers[step.i := p]
  {
    p := Next(cfg, s, step).producers[step.i];
    assert Next(cfg, s, step).producers == s.producers[step.i := p];
  }

  lemma OthersMoveNone(cfg: Config, s: State, step: Step)
    requires Enabled(cfg, s, step) && !MovesProducer(step) && !step.Register?
    ensures Next(cfg, s, step).producers == s.producers
  {
  }

  /** Only `Register` makes a producer registered; other steps move at most one producer. */
  lemma StepKeepsRegistrations(cfg: Config, s: State, step: Step)
    requires Enabled(cfg, s, step) && !step.Register?
    ensures var t := Next(cfg, s, step);
            && |t.producers| == |cfg.sources|
            && forall i :: 0 <= i < |cfg.sources| ==> HasRegistered(t.producers[i]) == HasRegistered(s.producers[i])
  {
    if MovesProducer(step) {
      var p := ProducerMoved(cfg, s, step);
      OneMoveKeepsRegistrations(s.producers, step.i, p);
    } else {
      OthersMoveNone(cfg, s, step);
    }
  }

  lemma OfferedEntriesAreRegistered(cfg: Config, s: State, step: Step)
    requires InStep(cfg, s) && Enabled(cfg, s, step)
    ensures forall k :: 0 <= k < |Next(cfg, s, step).sent| ==> Next(cfg, s, step).sent[k].name in s.ui
  {
    var t := Next(cfg, s, step);
    if step.Offer? {
      assert RegisteredAs(cfg, s, step.i);
      assert t.sent == s.sent || t.sent == s.sent + [EntryFor(cfg, step.i, s.producers[step.i].pending[0])];
    } else {
      assert t.sent == s.sent;
    }
  }

  /** Every other step leaves the interface and the log of handled entries alone. */
  lemma OtherStepsStayInStep(cfg: Config, s: State, step: Step)
    requires InStep(cfg, s) && Enabled(cfg, s, step) && !step.Register? && !step.Receive?
    ensures InStep(cfg, Next(cfg, s, step))
  {
    StepKeepsInterface(cfg, s, step);
    StepKeepsRegistrations(cfg, s, step);
    OfferedEntriesAreRegistered(cfg, s, step);
    SameInterfaceStaysInStep(cfg, s, Next(cfg, s, step));
  }

  lemma {:induction false} InStepAlways(cfg: Config, schedule: seq<Step>)
    requires WellFormed(cfg)
    ensures InStep(cfg, After(cfg, schedule))
  {
    if |schedule| > 0 {
      var init, step := schedule[..|schedule| - 1], schedule[|schedule| - 1];
      var s := After(cfg, init);
      InStepAlways(cfg, init);
      ConservedAlways(cfg, init);
      if Enabled(cfg, s, step) {
        match step
        case Register(i) => RegisterStaysInStep(cfg, s, i);
        case Receive => ReceiveStaysInStep(cfg, s);
        case _ => OtherStepsStayInStep(cfg, s, step);
      }
    }
  }

  /** Main result: at every reachable state, each registered map's table shows the rows of exactly the
      entries handled for it, and no entry was sent before its map was registered under its own
      type, so that none is dropped. */
  lemma TablesShowHandledEntries(cfg: Config, schedule: seq<Step>, i: nat)
    requires WellFormed(cfg) && i < |cfg.sources|
    ensures var s, src := After(cfg, schedule), cfg.sources[i];
            && |s.producers| == |cfg.sources|
            && (HasRegistered(s.producers[i]) ==>
                  && src.name in s.ui && s.ui[src.name].mapType == ShownAs(src.mapType)
                  && Shows(s.ui[src.name])
                  && s.ui[src.name].entries == RowsFor(cfg.hash, ShownAs(src.mapType), LogOf(s.handled, src.name)))
            && (!HasRegistered(s.producers[i]) ==> LogOf(s.sent, src.name) == [])
  {
    InStepAlways(cfg, schedule);
    var s, src := After(cfg, schedule), cfg.sources[i];
    if HasRegistered(s.producers[i]) {
      assert RegisteredAs(cfg, s, i);
      assert ShowsLog(cfg, s, src.name);
    } else {
      NoEntriesNoLog(s.sent, src.name);
    }
  }

  // ---------------------------------------------------------------- what is on the screen

  /** Main result: at every reachable state, each registered table of a map shows, cell by cell, the entries
      handled for the map, under its labels in order: a ring buffer's one by one, a hash map's (and an
      array's) one row per key with a value. */
  lemma TablesShowCells(cfg: Config, schedule: seq<Step>, i: nat)
    requires WellFormed(cfg) && i < |cfg.sources|
    requires cfg.sources[i].name in After(cfg, schedule).ui
    ensures var s, src := After(cfg, schedule), cfg.sources[i];
            var v, log := s.ui[src.name], LogOf(s.handled, src.name);
            && Sorted(v.keys) && multiset(v.keys) == multiset(src.labels)
            && (|v.entries| == 0 ==> v.table == map[])
            && (|v.entries| > 0 ==> ShowsCells(v.keys, v.entries, v.table, src.mapType != RingBuf))
            && (src.mapType == RingBuf ==>
                  && |v.entries| == |log|
                  && forall k :: 0 <= k < |log| ==> v.entries[k].key == log[k].key && v.entries[k].value == log[k].value)
            && (src.mapType != RingBuf ==>
                  && v.entries == HashRows(cfg.hash, log)
                  && (NoCollision(cfg.hash, log) ==> v.entries == LatestRows(cfg.hash, log)))
  {
    var s, src := After(cfg, schedule), cfg.sources[i];
    InStepAlways(cfg, schedule);
    TablesShowHandledEntries(cfg, schedule, i);
    assert RegisteredAs(cfg, s, i);
    TableCells(s.ui[src.name]);
    RingRowsAreTheLog(cfg.hash, LogOf(s.handled, src.name));
    RowsAreLatestIffNoCollision(cfg.hash, LogOf(s.handled, src.name));
  }

  lemma NumberedStep(cfg: Config, s: State, step: Step)
    requires InStep(cfg, s) && Numbered(s.ui) && Enabled(cfg, s, step)
    ensures Numbered(Next(cfg, s, step).ui)
  {
    if step.Register? {
      var src := cfg.sources[step.i];
      RegisteredKeepsNumbers(s.ui, src.name, src.labels, ShownAs(src.mapType));
    } else if step.Receive? {
      HandledKeepsNumbers(cfg.hash, s.ui, s.queue[0]);
    } else {
      StepKeepsInterface(cfg, s, step);
    }
  }

  /** Main result: whatever order the maps register in, their indexes are 0, 1, 2 and so on, each once. */
  lemma {:induction false} TablesAreNumbered(cfg: Config, schedule: seq<Step>)
    requires WellFormed(cfg)
    ensures Numbered(After(cfg, schedule).ui)
  {
    if |schedule| > 0 {
      var init, step := schedule[..|schedule| - 1], schedule[|schedule| - 1];
      TablesAreNumbered(cfg, init);
      InStepAlways(cfg, init);
      if Enabled(cfg, After(cfg, init), step) {
        NumberedStep(cfg, After(cfg, init), step);
      }
    }
  }
}
