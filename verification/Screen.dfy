/** From `tcp_v4_connect` to the screen: the tcpconnect probe, the loader's poll of `events_hash`, the
    channel and the consumer, interleaved step by step in any order. */
module Screen {
  import opened Outcomes
  import opened Words
  import opened Bytes
  import opened Sockets
  import opened Labelling
  import opened Stats
  import opened Loading
  import opened Tables
  import PairKeys
  import TcpConnect
  import EndToEnd
  import Lifecycle
  import Display
  import Draining

  type DataStep = EndToEnd.Step
  type UiStep = Lifecycle.Step

  /** How the bytes are read, what is watched, and which source is `events_hash`. */
  datatype Setup = Setup(c: PairKeys.Config, cfg: Lifecycle.Config, at: nat)

  ghost predicate Proper(su: Setup) {
    && Lifecycle.WellFormed(su.cfg)
    && su.at < |su.cfg.sources| && su.cfg.sources[su.at].mapType == Hash
    && su.cfg.hash == su.c.hash
  }

  // ---------------------------------------------------------------- the joint system

  /** A step of the probe and the readers, or one of the producers, the channel and the consumer. */
  datatype Step = Data(data: DataStep) | Ui(ui: UiStep)

  /** What has happened on either side so far. */
  datatype State = State(data: seq<DataStep>, schedule: seq<UiStep>)

  ghost function UiOf(su: Setup, s: State): Lifecycle.State {
    Lifecycle.After(su.cfg, s.schedule)
  }

  /** The entries the loader makes of `d` when its poll gets there. */
  ghost function Sent(c: PairKeys.Config, data: seq<DataStep>, d: Dimensions): seq<KvPair>
    requires d in EndToEnd.Maps(data).eventsHash
  {
    EndToEnd.PollOf(c, EndToEnd.Maps(data), EndToEnd.Run(c, data), d).sent
  }

  /** A poll reads a key only when its producer has none left to offer, and it alone feeds the
      producer of `events_hash`. */
  ghost predicate Happens(su: Setup, s: State, step: Step) {
    match step
    case Data(PollKey(d)) =>
      && EndToEnd.Run(su.c, s.data).alive && d in EndToEnd.Maps(s.data).eventsHash
      && Lifecycle.Enabled(su.cfg, UiOf(su, s), Lifecycle.Obtain(su.at, Sent(su.c, s.data, d)))
    case Data(_) => true
    case Ui(u) => Lifecycle.Enabled(su.cfg, UiOf(su, s), u) && !(u.Obtain? && u.i == su.at)
  }

  ghost function Next(su: Setup, s: State, step: Step): State
    requires Happens(su, s, step)
  {
    match step
    case Data(PollKey(d)) =>
      State(s.data + [step.data], s.schedule + [Lifecycle.Obtain(su.at, Sent(su.c, s.data, d))])
    case Data(_) => s.(data := s.data + [step.data])
    case Ui(u) => s.(schedule := s.schedule + [u])
  }

  /** The state after a run; a step that cannot happen does not. */
  ghost function After(su: Setup, steps: seq<Step>): State {
    if |steps| == 0 then State([], [])
    else
      var s, step := After(su, steps[..|steps| - 1]), steps[|steps| - 1];
      if Happens(su, s, step) then Next(su, s, step) else s
  }

  // ---------------------------------------------------------------- what the poll has read

  /** A poll that found `d`, and the kernel events up to that moment. */
  datatype Read = Read(d: Dimensions, es: seq<TcpConnect.Event>)

  ghost function Reads(c: PairKeys.Config, data: seq<DataStep>): seq<Read> {
    if |data| == 0 then []
    else
      var init, last := data[..|data| - 1], data[|data| - 1];
      if Found(c, init, last) && EndToEnd.Run(c, data).alive then Reads(c, init) + [Read(last.d, EndToEnd.Events(init))]
      else Reads(c, init)
  }

  ghost predicate Found(c: PairKeys.Config, data: seq<DataStep>, step: DataStep) {
    step.PollKey? && EndToEnd.Run(c, data).alive && step.d in EndToEnd.Maps(data).eventsHash
  }

  /** The word the poll read. */
  ghost function CountRead(r: Read): U64 {
    var m := TcpConnect.After(r.es).eventsHash;
    if r.d in m then m[r.d] else 0
  }

  ghost function EntryRead(c: PairKeys.Config, r: Read): KvPair {
    KvPair(PairKeys.LabelsOf(c, r.d), Decimal(CountRead(r)))
  }

  ghost function Entries(c: PairKeys.Config, rs: seq<Read>): (kvs: seq<KvPair>)
    ensures |kvs| == |rs|
    ensures forall k :: 0 <= k < |rs| ==> kvs[k] == EntryRead(c, rs[k])
  {
    seq(|rs|, k requires 0 <= k < |rs| => EntryRead(c, rs[k]))
  }

  lemma ReadsStep(c: PairKeys.Config, data: seq<DataStep>, d: Dimensions)
    requires Found(c, data, EndToEnd.PollKey(d))
    ensures var longer := data + [EndToEnd.PollKey(d)];
            && Reads(c, longer) == Reads(c, data) + (if EndToEnd.Run(c, longer).alive then [Read(d, EndToEnd.Events(data))] else [])
            && EndToEnd.Run(c, longer) == EndToEnd.Next(c, EndToEnd.Maps(data), EndToEnd.Run(c, data), EndToEnd.PollKey(d))
  {
    var longer := data + [EndToEnd.PollKey(d)];
    assert longer[..|longer| - 1] == data && longer[|longer| - 1] == EndToEnd.PollKey(d);
  }

  lemma SentIsRead(c: PairKeys.Config, data: seq<DataStep>, d: Dimensions)
    requires Found(c, data, EndToEnd.PollKey(d))
    ensures Sent(c, data, d)
            == if EndToEnd.Next(c, EndToEnd.Maps(data), EndToEnd.Run(c, data), EndToEnd.PollKey(d)).alive
               then [EntryRead(c, Read(d, EndToEnd.Events(data)))] else []
  {
    EndToEnd.RunIsSetUp(c, data);
    EndToEnd.PollKeySets(c, EndToEnd.Maps(data), EndToEnd.Run(c, data), d);
  }

  /** One more poll, seen from the producer. */
  lemma PollSendsRead(c: PairKeys.Config, data: seq<DataStep>, d: Dimensions)
    requires Found(c, data, EndToEnd.PollKey(d))
    ensures Entries(c, Reads(c, data + [EndToEnd.PollKey(d)])) == Entries(c, Reads(c, data)) + Sent(c, data, d)
  {
    ReadsStep(c, data, d);
    SentIsRead(c, data, d);
  }

  lemma OtherStepsReadNothing(c: PairKeys.Config, data: seq<DataStep>, step: DataStep)
    requires !step.PollKey?
    ensures Reads(c, data + [step]) == Reads(c, data)
  {
    assert (data + [step])[..|data|] == data;
  }

  lemma ObtainedOnly(cfg: Lifecycle.Config, s: Lifecycle.State, step: UiStep, i: nat)
    requires Lifecycle.Enabled(cfg, s, step) && i < |cfg.sources|
    ensures |Lifecycle.Next(cfg, s, step).produced| == |s.produced| == |cfg.sources|
    ensures Lifecycle.Next(cfg, s, step).produced[i]
            == if step.Obtain? && step.i == i then s.produced[i] + step.entries else s.produced[i]
  {
  }

  /** The producer of `events_hash` has produced exactly what the poll has read. */
  lemma {:induction false} ProducedIsRead(su: Setup, steps: seq<Step>)
    requires Proper(su)
    ensures var s := After(su, steps);
            && |UiOf(su, s).produced| == |su.cfg.sources|
            && UiOf(su, s).produced[su.at] == Entries(su.c, Reads(su.c, s.data))
  {
    if |steps| > 0 {
      var s, step := After(su, steps[..|steps| - 1]), steps[|steps| - 1];
      ProducedIsRead(su, steps[..|steps| - 1]);
      if Happens(su, s, step) {
        ProducedStep(su, s, step);
      }
    }
  }

  lemma ProducedStep(su: Setup, s: State, step: Step)
    requires Proper(su) && Happens(su, s, step)
    requires |UiOf(su, s).produced| == |su.cfg.sources| && UiOf(su, s).produced[su.at] == Entries(su.c, Reads(su.c, s.data))
    ensures var t := Next(su, s, step);
            && |UiOf(su, t).produced| == |su.cfg.sources|
            && UiOf(su, t).produced[su.at] == Entries(su.c, Reads(su.c, t.data))
  {
    match step
    case Data(PollKey(d)) =>
      var obtain := Lifecycle.Obtain(su.at, Sent(su.c, s.data, d));
      Lifecycle.AfterSnoc(su.cfg, s.schedule, obtain);
      ObtainedOnly(su.cfg, UiOf(su, s), obtain, su.at);
      PollSendsRead(su.c, s.data, d);
    case Data(_) => OtherStepsReadNothing(su.c, s.data, step.data);
    case Ui(u) =>
      Lifecycle.AfterSnoc(su.cfg, s.schedule, u);
      ObtainedOnly(su.cfg, UiOf(su, s), u, su.at);
  }

  // ---------------------------------------------------------------- what has been handled

  /** The reads whose entries pass the filter. */
  ghost function PassingReads(su: Setup, rs: seq<Read>): seq<Read>
    requires su.at < |su.cfg.sources|
  {
    if |rs| == 0 then []
    else
      var rest := PassingReads(su, rs[1..]);
      if su.cfg.passes(Lifecycle.EntryFor(su.cfg, su.at, EntryRead(su.c, rs[0]))) then [rs[0]] + rest else rest
  }

  lemma {:induction false} PassingReadsAreReads(su: Setup, rs: seq<Read>, r: Read)
    requires su.at < |su.cfg.sources| && r in PassingReads(su, rs)
    ensures r in rs
  {
    if r != rs[0] {
      PassingReadsAreReads(su, rs[1..], r);
    }
  }

  lemma EntryAt(c: PairKeys.Config, rs: seq<Read>, k: nat)
    requires k < |rs|
    ensures Entries(c, rs)[k] == EntryRead(c, rs[k])
  {
  }

  lemma HeadAndRest<T>(all: seq<T>, head: T, rest: seq<T>)
    requires |all| == |rest| + 1 && all[0] == head
    requires forall k :: 0 <= k < |rest| ==> all[k + 1] == rest[k]
    ensures all == [head] + rest
  {
  }

  lemma EntriesOfRest(c: PairKeys.Config, rs: seq<Read>)
    requires |rs| > 0
    ensures Entries(c, rs) == [EntryRead(c, rs[0])] + Entries(c, rs[1..])
  {
    var all, rest := Entries(c, rs), Entries(c, rs[1..]);
    EntryAt(c, rs, 0);
    forall k | 0 <= k < |rest|
      ensures all[k + 1] == rest[k]
    {
      EntryAt(c, rs, k + 1);
      EntryAt(c, rs[1..], k);
    }
    HeadAndRest(all, EntryRead(c, rs[0]), rest);
  }

  lemma EntriesOfMore(c: PairKeys.Config, r: Read, rs: seq<Read>)
    ensures Entries(c, [r] + rs) == [EntryRead(c, r)] + Entries(c, rs)
  {
    EntriesOfRest(c, [r] + rs);
    assert ([r] + rs)[1..] == rs;
  }

  lemma {:induction false} PassingEntries(su: Setup, rs: seq<Read>)
    requires su.at < |su.cfg.sources|
    ensures Lifecycle.Passing(su.cfg, su.at, Entries(su.c, rs)) == Entries(su.c, PassingReads(su, rs))
  {
    if |rs| > 0 {
      var rest := PassingReads(su, rs[1..]);
      PassingEntries(su, rs[1..]);
      EntriesOfRest(su.c, rs);
      EntriesOfMore(su.c, rs[0], rest);
      assert Entries(su.c, rs)[1..] == Entries(su.c, rs[1..]);
    }
  }

  ghost function Name(su: Setup): string
    requires Proper(su)
  {
    su.cfg.sources[su.at].name
  }

  /** The entries of the map that the consumer has taken off the channel. */
  ghost function HandledLog(su: Setup, s: State): seq<KvPair>
    requires Proper(su)
  {
    Lifecycle.LogOf(UiOf(su, s).handled, Name(su))
  }

  /** The reads behind them: the first passing ones, as many as have been handled. */
  ghost function HandledReads(su: Setup, s: State): seq<Read>
    requires Proper(su)
  {
    var rs := PassingReads(su, Reads(su.c, s.data));
    if |HandledLog(su, s)| <= |rs| then rs[..|HandledLog(su, s)|] else rs
  }

  lemma HandledIsRead(su: Setup, steps: seq<Step>)
    requires Proper(su)
    ensures var s := After(su, steps);
            && HandledLog(su, s) == Entries(su.c, HandledReads(su, s))
            && (forall r :: r in HandledReads(su, s) ==> r in Reads(su.c, s.data))
  {
    var s := After(su, steps);
    ProducedIsRead(su, steps);
    PassingEntries(su, Reads(su.c, s.data));
    Lifecycle.EntriesAreConserved(su.cfg, s.schedule, su.at);
    var rs, log := PassingReads(su, Reads(su.c, s.data)), HandledLog(su, s);
    assert log <= Entries(su.c, rs);
    forall r | r in rs
      ensures r in Reads(su.c, s.data)
    {
      PassingReadsAreReads(su, Reads(su.c, s.data), r);
    }
    assert Entries(su.c, rs[..|log|]) == Entries(su.c, rs)[..|log|];
  }

  /** The last read of a pair. */
  ghost function LastRead(rs: seq<Read>, d: Dimensions): Option<Read> {
    if |rs| == 0 then None
    else if rs[|rs| - 1].d == d then Some(rs[|rs| - 1])
    else LastRead(rs[..|rs| - 1], d)
  }

  lemma {:induction false} LatestIsLastRead(c: PairKeys.Config, rs: seq<Read>, d: Dimensions)
    ensures var log, l := Entries(c, rs), PairKeys.LabelsOf(c, d);
            && (LastRead(rs, d).Some? <==> l in FirstSeen(log))
            && (LastRead(rs, d).Some? ==> Latest(log, l) == Decimal(CountRead(LastRead(rs, d).value)))
  {
    if |rs| > 0 {
      var init, last := rs[..|rs| - 1], rs[|rs| - 1];
      LatestIsLastRead(c, init, d);
      var log := Entries(c, rs);
      assert log[..|log| - 1] == Entries(c, init) && log[|log| - 1] == EntryRead(c, last);
      if PairKeys.LabelsOf(c, last.d) == PairKeys.LabelsOf(c, d) {
        PairKeys.LabelsInjective(c, last.d, d);
      }
    }
  }

  lemma {:induction false} LastReadIsRead(rs: seq<Read>, d: Dimensions)
    requires LastRead(rs, d).Some?
    ensures LastRead(rs, d).value in rs && LastRead(rs, d).value.d == d
  {
    if rs[|rs| - 1].d != d {
      LastReadIsRead(rs[..|rs| - 1], d);
    }
  }

  /** Every read found its pair among those the kernel had counted. */
  lemma {:induction false} ReadsAreSeen(c: PairKeys.Config, data: seq<DataStep>, r: Read)
    requires r in Reads(c, data)
    ensures r.d in TcpConnect.After(r.es).eventsHash && r.d in TcpConnect.Seen(EndToEnd.Events(data))
  {
    var init, last := data[..|data| - 1], data[|data| - 1];
    EndToEnd.EventsStep(data);
    if r in Reads(c, init) {
      ReadsAreSeen(c, init, r);
    } else {
      TcpConnect.HashIsCompleteIffItFits(EndToEnd.Events(init));
    }
  }

  /** A count the poll has read is the number of matched connects at that moment. */
  lemma ReadsAreCounts(c: PairKeys.Config, data: seq<DataStep>, r: Read)
    requires r in Reads(c, data)
    ensures CountRead(r) == ToU64(TcpConnect.Matched(r.es, r.d))
  {
    ReadsAreSeen(c, data, r);
    TcpConnect.HashCountIsExact(r.es, r.d);
  }

  // ---------------------------------------------------------------- the table

  /** `key` has exactly one row, and it shows `value`. */
  ghost predicate OnlyRow(rows: seq<Row>, key: Labels, value: string) {
    exists k :: 0 <= k < |rows| && rows[k].key == key && rows[k].value == value && NoOtherRow(rows, key, k)
  }

  ghost predicate NoOtherRow(rows: seq<Row>, key: Labels, k: nat) {
    forall j :: 0 <= j < |rows| && rows[j].key == key ==> j == k
  }

  lemma LatestRowsHold(hash: Hasher, log: seq<KvPair>, key: Labels)
    ensures key in FirstSeen(log) ==> OnlyRow(LatestRows(hash, log), key, Latest(log, key))
    ensures key !in FirstSeen(log) ==> forall row :: row in LatestRows(hash, log) ==> row.key != key
  {
    var ks, rows := FirstSeen(log), LatestRows(hash, log);
    FirstSeenHoldsEveryKey(log, key);
    if key in ks {
      var k :| 0 <= k < |ks| && ks[k] == key;
      assert rows[k].key == key && rows[k].value == Latest(log, key);
      assert NoOtherRow(rows, key, k);
    } else {
      forall row | row in rows
        ensures row.key != key
      {
        var k :| 0 <= k < |rows| && rows[k] == row;
        assert ks[k] in ks;
      }
    }
  }

  lemma ReadKeysTellApart(c: PairKeys.Config, data: seq<DataStep>, q: Read, r: Read)
    requires EndToEnd.CollisionFreeOn(c, TcpConnect.Seen(EndToEnd.Events(data)))
    requires q in Reads(c, data) && r in Reads(c, data)
    requires c.hash(EntryRead(c, q).key) == c.hash(EntryRead(c, r).key)
    ensures EntryRead(c, q).key == EntryRead(c, r).key
  {
    ReadsAreSeen(c, data, q);
    ReadsAreSeen(c, data, r);
  }

  lemma ReadsDoNotCollide(c: PairKeys.Config, data: seq<DataStep>, rs: seq<Read>)
    requires EndToEnd.CollisionFreeOn(c, TcpConnect.Seen(EndToEnd.Events(data)))
    requires forall r :: r in rs ==> r in Reads(c, data)
    ensures NoCollision(c.hash, Entries(c, rs))
  {
    var log := Entries(c, rs);
    forall a, b | a in log && b in log && c.hash(a.key) == c.hash(b.key)
      ensures a.key == b.key
    {
      var i :| 0 <= i < |log| && log[i] == a;
      var j :| 0 <= j < |log| && log[j] == b;
      assert rs[i] in rs && rs[j] in rs;
      ReadKeysTellApart(c, data, rs[i], rs[j]);
    }
  }

  /** The row of `d` shows the matched connects at the poll whose entry was last handled, or there is
      none. */
  ghost predicate ShowsCount(su: Setup, rows: seq<Row>, handled: seq<Read>, d: Dimensions) {
    var key := PairKeys.LabelsOf(su.c, d);
    match LastRead(handled, d)
    case None => forall row :: row in rows ==> row.key != key
    case Some(r) => OnlyRow(rows, key, Decimal(ToU64(TcpConnect.Matched(r.es, d))))
  }

  /** Main result: at every moment of every interleaving, the table of `events_hash`, once registered,
      shows for each pair the decimal of its matched connects at the poll whose entry was last handled,
      and nothing for other pairs, if the hash does not collide on the pairs seen. */
  lemma CountsReachTheScreen(su: Setup, steps: seq<Step>, d: Dimensions)
    requires Proper(su)
    requires EndToEnd.CollisionFreeOn(su.c, TcpConnect.Seen(EndToEnd.Events(After(su, steps).data)))
    ensures var s := After(su, steps);
            var ui := UiOf(su, s).ui;
            Name(su) in ui ==> Shows(ui[Name(su)]) && ShowsCount(su, ui[Name(su)].entries, HandledReads(su, s), d)
  {
    var s := After(su, steps);
    var rs := HandledReads(su, s);
    HandledIsRead(su, steps);
    ReadsDoNotCollide(su.c, s.data, rs);
    RowsAreLatestIffNoCollision(su.cfg.hash, Entries(su.c, rs));
    TableOfLog(su, s);
    LatestShowsCount(su, s.data, rs, d);
  }

  // ---------------------------------------------------------------- the cells

  /** The columns of `events_hash` are the labels `Parse` registered for it. */
  ghost predicate Labelled(su: Setup)
    requires Proper(su)
  {
    su.cfg.sources[su.at].labels == MemberNames(PairKeys.DIMENSIONS)
  }

  lemma TwoInOrder(columns: seq<string>, first: string, second: string)
    requires Sorted(columns) && multiset(columns) == multiset{first, second}
    requires first != second && !StringLeq(second, first)
    ensures columns == [first, second]
  {
    assert |columns| == |multiset(columns)| == 2;
    assert columns == [columns[0], columns[1]];
    assert columns[0] in multiset(columns) && columns[1] in multiset(columns);
    assert multiset(columns) == multiset{columns[0], columns[1]};
    assert multiset{columns[0], columns[1]}[first] == 1;
    assert StringLeq(columns[0], columns[1]);
  }

  lemma ColumnsOfPairs()
    ensures SortStrings(MemberNames(PairKeys.DIMENSIONS)) == ["daddr", "saddr"]
  {
    var names := MemberNames(PairKeys.DIMENSIONS);
    assert names == ["saddr", "daddr"];
    assert "saddr"[0] != "daddr"[0];
    TwoInOrder(SortStrings(names), "daddr", "saddr");
  }

  /** A text shows four bytes as numerals between dots. */
  ghost predicate ShowsAddress(text: string, addr: seq<int>)
    requires |addr| == 4 && forall i :: 0 <= i < 4 ==> addr[i] >= 0
  {
    |SplitAtDots(text)| == 4 && forall i :: 0 <= i < 4 ==> IsNumeral(SplitAtDots(text)[i], addr[i])
  }

  /** Grid row `row` reads: the destination address, the source address, and the number `n`. */
  ghost predicate ReadsPair(c: PairKeys.Config, table: Grid, row: nat, d: Dimensions, n: nat) {
    && row > 0 && (row, 0) in table && (row, 1) in table && (row, 2) in table
    && ShowsAddress(table[(row, 0)], PutWord(c.order, d.daddr, 4))
    && ShowsAddress(table[(row, 1)], PutWord(c.order, d.saddr, 4))
    && IsNumeral(table[(row, 2)], n)
  }

  /** Grid row `row` names the pair. */
  ghost predicate NamesPair(c: PairKeys.Config, table: Grid, row: nat, d: Dimensions) {
    && (row, 0) in table && (row, 1) in table
    && table[(row, 0)] == PairKeys.LabelsOf(c, d)["daddr"] && table[(row, 1)] == PairKeys.LabelsOf(c, d)["saddr"]
  }

  lemma LabelsShowAddresses(c: PairKeys.Config, d: Dimensions)
    ensures ShowsAddress(PairKeys.LabelsOf(c, d)["daddr"], PutWord(c.order, d.daddr, 4))
    ensures ShowsAddress(PairKeys.LabelsOf(c, d)["saddr"], PutWord(c.order, d.saddr, 4))
  {
    DottedQuadIsNumerals(PutWord(c.order, d.daddr, 4));
    DottedQuadIsNumerals(PutWord(c.order, d.saddr, 4));
  }

  ghost predicate IsPairKey(c: PairKeys.Config, key: Labels) {
    exists q :: key == PairKeys.LabelsOf(c, q)
  }

  /** Every row is that of some pair. */
  ghost predicate PairRows(c: PairKeys.Config, rows: seq<Row>) {
    forall k :: 0 <= k < |rows| ==> IsPairKey(c, rows[k].key)
  }

  lemma LatestRowsArePairs(su: Setup, rs: seq<Read>)
    ensures PairRows(su.c, LatestRows(su.cfg.hash, Entries(su.c, rs)))
  {
    var log := Entries(su.c, rs);
    var rows := LatestRows(su.cfg.hash, log);
    forall k | 0 <= k < |rows|
      ensures IsPairKey(su.c, rows[k].key)
    {
      FirstSeenHoldsEveryKey(log, FirstSeen(log)[k]);
      assert FirstSeen(log)[k] in FirstSeen(log);
      var e :| e in log && e.key == FirstSeen(log)[k];
      var j :| 0 <= j < |log| && log[j] == e;
      assert rows[k].key == PairKeys.LabelsOf(su.c, rs[j].d);
    }
  }

  /** Two rows with a pair's addresses have that pair's labels. */
  lemma SameAddressesSameKey(c: PairKeys.Config, key: Labels, d: Dimensions)
    requires IsPairKey(c, key)
    ensures "daddr" in key && "saddr" in key
    ensures key == PairKeys.LabelsOf(c, d)
            <==> key["daddr"] == PairKeys.LabelsOf(c, d)["daddr"] && key["saddr"] == PairKeys.LabelsOf(c, d)["saddr"]
  {
    var q :| key == PairKeys.LabelsOf(c, q);
  }

  /** With cells that show the rows, naming a pair in the grid is having its labels in the list. */
  lemma NamedByItsLabels(c: PairKeys.Config, rows: seq<Row>, table: Grid, k: nat, d: Dimensions)
    requires ShowsCells(["daddr", "saddr"], rows, table, true) && k < |rows| && PairRows(c, rows)
    ensures NamesPair(c, table, k + 1, d) <==> rows[k].key == PairKeys.LabelsOf(c, d)
    ensures IsCell(table, k + 1, 2, rows[k].value)
  {
    var key, columns := rows[k].key, ["daddr", "saddr"];
    SameAddressesSameKey(c, key, d);
    assert IsCell(table, k + 1, 0, key[columns[0]]);
    assert IsCell(table, k + 1, 1, key[columns[1]]);
  }

  /** What the grid of `events_hash` shows for a pair: one row with its addresses and its matched connects
      at the poll whose entry was last handled, or no row with them. */
  ghost predicate GridShowsCount(c: PairKeys.Config, table: Grid, size: nat, handled: seq<Read>, d: Dimensions) {
    match LastRead(handled, d)
    case None => forall row :: 0 < row <= size ==> !NamesPair(c, table, row, d)
    case Some(r) =>
      exists row :: 0 < row <= size && ReadsPair(c, table, row, d, TcpConnect.Matched(r.es, d) % 0x1_0000_0000_0000_0000)
                    && OnlyNamed(c, table, size, d, row)
  }

  /** Grid row `row` is the only one among the first `size` that names the pair. */
  ghost predicate OnlyNamed(c: PairKeys.Config, table: Grid, size: nat, d: Dimensions, row: nat) {
    forall other :: 0 < other <= size && NamesPair(c, table, other, d) ==> other == row
  }

  lemma RowReadsPair(c: PairKeys.Config, rows: seq<Row>, table: Grid, k: nat, d: Dimensions, n: nat)
    requires ShowsCells(["daddr", "saddr"], rows, table, true) && k < |rows| && PairRows(c, rows)
    requires rows[k].key == PairKeys.LabelsOf(c, d) && rows[k].value == Decimal(n)
    ensures ReadsPair(c, table, k + 1, d, n)
  {
    NamedByItsLabels(c, rows, table, k, d);
    LabelsShowAddresses(c, d);
    DecimalIsNumeral(n);
  }

  lemma OnlyRowOnlyNamed(c: PairKeys.Config, rows: seq<Row>, table: Grid, k: nat, d: Dimensions)
    requires ShowsCells(["daddr", "saddr"], rows, table, true) && k < |rows| && PairRows(c, rows)
    requires NoOtherRow(rows, PairKeys.LabelsOf(c, d), k)
    ensures OnlyNamed(c, table, |rows|, d, k + 1)
  {
    forall other | 0 < other <= |rows| && NamesPair(c, table, other, d)
      ensures other == k + 1
    {
      NamedByItsLabels(c, rows, table, other - 1, d);
    }
  }

  lemma NoRowNoneNamed(c: PairKeys.Config, rows: seq<Row>, table: Grid, d: Dimensions)
    requires ShowsCells(["daddr", "saddr"], rows, table, true) && PairRows(c, rows)
    requires forall row :: row in rows ==> row.key != PairKeys.LabelsOf(c, d)
    ensures forall row :: 0 < row <= |rows| ==> !NamesPair(c, table, row, d)
  {
    forall row | 0 < row <= |rows|
      ensures !NamesPair(c, table, row, d)
    {
      NamedByItsLabels(c, rows, table, row - 1, d);
      assert rows[row - 1] in rows;
    }
  }

  lemma RowsToCells(su: Setup, rows: seq<Row>, table: Grid, handled: seq<Read>, d: Dimensions)
    requires ShowsCount(su, rows, handled, d) && PairRows(su.c, rows)
    requires ShowsCells(["daddr", "saddr"], rows, table, true)
    ensures GridShowsCount(su.c, table, |rows|, handled, d)
  {
    var key := PairKeys.LabelsOf(su.c, d);
    match LastRead(handled, d)
    case None => NoRowNoneNamed(su.c, rows, table, d);
    case Some(r) =>
      var n := ToU64(TcpConnect.Matched(r.es, d));
      var k :| 0 <= k < |rows| && rows[k].key == key && rows[k].value == Decimal(n) && NoOtherRow(rows, key, k);
      RowReadsPair(su.c, rows, table, k, d, n);
      OnlyRowOnlyNamed(su.c, rows, table, k, d);
      assert 0 < k + 1 <= |rows|;
  }

  /** Main result: the same, cell by cell. The header reads daddr, saddr, value; a pair's two addresses and the
      numeral of its matched connects at the poll whose entry was last handled stand in one row of the grid,
      and in no other. */
  lemma CountsReachTheCells(su: Setup, steps: seq<Step>, d: Dimensions)
    requires Proper(su) && Labelled(su)
    requires EndToEnd.CollisionFreeOn(su.c, TcpConnect.Seen(EndToEnd.Events(After(su, steps).data)))
    requires Name(su) in UiOf(su, After(su, steps)).ui
    ensures var s := After(su, steps);
            var v := UiOf(su, s).ui[Name(su)];
            && (|v.entries| > 0 ==>
                  && IsCell(v.table, 0, 0, "daddr") && IsCell(v.table, 0, 1, "saddr") && IsCell(v.table, 0, 2, "value"))
            && GridShowsCount(su.c, v.table, |v.entries|, HandledReads(su, s), d)
  {
    var s := After(su, steps);
    var v, rs := UiOf(su, s).ui[Name(su)], HandledReads(su, s);
    CountsReachTheScreen(su, steps, d);
    Display.InStepAlways(su.cfg, s.schedule);
    assert Display.RegisteredAs(su.cfg, UiOf(su, s), su.at);
    ColumnsOfPairs();
    HandledIsRead(su, steps);
    ReadsDoNotCollide(su.c, s.data, rs);
    RowsAreLatestIffNoCollision(su.cfg.hash, Entries(su.c, rs));
    TableOfLog(su, s);
    LatestRowsArePairs(su, rs);
    if |v.entries| > 0 {
      TableCells(v);
      HeaderOfPairs(v.table, v.entries);
      RowsToCells(su, v.entries, v.table, rs, d);
    }
  }

  lemma HeaderOfPairs(table: Grid, rows: seq<Row>)
    requires ShowsCells(["daddr", "saddr"], rows, table, true)
    ensures IsCell(table, 0, 0, "daddr") && IsCell(table, 0, 1, "saddr") && IsCell(table, 0, 2, "value")
  {
    var columns := ["daddr", "saddr"];
    assert IsCell(table, 0, 0, columns[0]) && IsCell(table, 0, 1, columns[1]);
  }

  /** The table of the map shows the rows of what has been handled. */
  lemma TableOfLog(su: Setup, s: State)
    requires Proper(su)
    ensures var ui := UiOf(su, s).ui;
            Name(su) in ui ==> Shows(ui[Name(su)]) && ui[Name(su)].entries == HashRows(su.cfg.hash, HandledLog(su, s))
  {
    Display.InStepAlways(su.cfg, s.schedule);
    Display.TablesShowHandledEntries(su.cfg, s.schedule, su.at);
  }

  lemma LatestShowsCount(su: Setup, data: seq<DataStep>, rs: seq<Read>, d: Dimensions)
    requires forall r :: r in rs ==> r in Reads(su.c, data)
    ensures ShowsCount(su, LatestRows(su.cfg.hash, Entries(su.c, rs)), rs, d)
  {
    LatestIsLastRead(su.c, rs, d);
    LatestRowsHold(su.cfg.hash, Entries(su.c, rs), PairKeys.LabelsOf(su.c, d));
    if LastRead(rs, d).Some? {
      LastReadIsRead(rs, d);
      ReadsAreCounts(su.c, data, LastRead(rs, d).value);
    }
  }

  /** Main result: when all are at rest and the producer of `events_hash` did not fail, every passing
      entry the poll has read is on the screen. */
  lemma FinalScreen(su: Setup, steps: seq<Step>)
    requires Proper(su)
    requires Draining.AtRest(UiOf(su, After(su, steps)))
    requires su.at < |UiOf(su, After(su, steps)).producers|
    requires UiOf(su, After(su, steps)).producers[su.at] == Lifecycle.Finished(false)
    ensures var s := After(su, steps);
            Name(su) in UiOf(su, s).ui && HandledReads(su, s) == PassingReads(su, Reads(su.c, s.data))
  {
    var s := After(su, steps);
    ProducedIsRead(su, steps);
    PassingEntries(su, Reads(su.c, s.data));
    Draining.FinalTables(su.cfg, s.schedule, su.at);
  }
}
