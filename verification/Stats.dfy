/** The Prometheus instruments (pkg/stats/stats.go): absolute kernel values turned into counter
    increments, per label set. Exported series are integers; `Add` panics on a negative argument and
    `With` on label names other than the registered ones. Label values are taken to be valid UTF-8. */
module Stats {
  import opened Outcomes
  import opened Words
  import opened Labelling

  /** `hashstructure.Hash` on label maps. Its one assumed property, used by the theorems below, is
      that it does not collide on the label maps in use. */
  type Hasher = Labels -> nat

  ghost predicate InjectiveOn(hash: Hasher, ls: set<Labels>) {
    forall a, b :: a in ls && b in ls && hash(a) == hash(b) ==> a == b
  }

  datatype CounterState = CounterState(counterMap: map<nat, S64>, series: map<Labels, int>)

  const NO_SERIES := CounterState(map[], map[])

  function Remembered(s: CounterState, hash: Hasher, l: Labels): S64 {
    if hash(l) in s.counterMap then s.counterMap[hash(l)] else 0
  }

  function Exported(s: CounterState, l: Labels): int {
    if l in s.series then s.series[l] else 0
  }

  /** The state after `Set`, and whether the process survives it. */
  datatype SetResult = SetResult(state: CounterState, alive: bool)

  function SetNext(hash: Hasher, names: set<string>, s: CounterState, val: S64, l: Labels): SetResult {
    var oldVal := Remembered(s, hash, l);
    var diff := ToS64(val as int - oldVal);
    if val == oldVal then SetResult(s, true)
    else
      var counterMap := s.counterMap[hash(l) := val];
      if l.Keys != names then SetResult(CounterState(counterMap, s.series), false)
      else if diff < 0 then SetResult(CounterState(counterMap, s.series[l := Exported(s, l)]), false)
      else SetResult(CounterState(counterMap, s.series[l := Exported(s, l) + diff]), true)
  }

  class SetCounter {
    const hash: Hasher
    const labelNames: set<string>
    var counterMap: map<nat, S64>
    var series: map<Labels, int>

    ghost function Now(): CounterState
      reads this
    {
      CounterState(counterMap, series)
    }

    constructor (hash: Hasher, labels: seq<string>)
      ensures Now() == NO_SERIES
      ensures this.hash == hash && labelNames == set name | name in labels
    {
      this.hash := hash;
      labelNames := set name | name in labels;
      counterMap, series := map[], map[];
    }

    method Set(intVal: S64, decodedKey: Labels) returns (outcome: Outcome<()>)
      modifies this
      ensures var r := SetNext(hash, labelNames, old(Now()), intVal, decodedKey);
              Now() == r.state && outcome == if r.alive then Ok(()) else Crash
    {
      var keyHash := hash(decodedKey);
      var oldVal := if keyHash in counterMap then counterMap[keyHash] else 0;
      var diff := ToS64(intVal as int - oldVal);
      if oldVal == intVal {
        return Ok(());
      }
      counterMap := counterMap[keyHash := intVal];
      outcome := Add(decodedKey, diff);
    }

    /** `counter.With(labels).Add(diff)`: the series appears at zero before a negative `diff` panics.
        `With` also rejects label values that are not valid UTF-8; values are taken to be valid here. */
    method Add(decodedKey: Labels, diff: S64) returns (outcome: Outcome<()>)
      modifies this`series
      ensures outcome == if decodedKey.Keys == labelNames && diff >= 0 then Ok(()) else Crash
      ensures var child := Exported(old(Now()), decodedKey);
              series == if decodedKey.Keys != labelNames then old(series)
                        else old(series)[decodedKey := if diff < 0 then child else child + diff]
    {
      if decodedKey.Keys != labelNames {
        return Crash;
      }
      var child := if decodedKey in series then series[decodedKey] else 0;
      series := series[decodedKey := child];
      if diff < 0 {
        return Crash;
      }
      series := series[decodedKey := child + diff];
      assert series == old(series)[decodedKey := child + diff];
      return Ok(());
    }
  }

  class IncrementCounter {
    const labelNames: set<string>
    var series: map<Labels, int>

    constructor (labels: seq<string>)
      ensures series == map[] && labelNames == set name | name in labels
    {
      labelNames := set name | name in labels;
      series := map[];
    }

    method Increment(decodedKey: Labels) returns (outcome: Outcome<()>)
      modifies this
      ensures outcome == if decodedKey.Keys == labelNames then Ok(()) else Crash
      ensures series == if decodedKey.Keys == labelNames then Incremented(old(series), decodedKey) else old(series)
    {
      if decodedKey.Keys != labelNames {
        return Crash;
      }
      series := series[decodedKey := (if decodedKey in series then series[decodedKey] else 0) + 1];
      return Ok(());
    }
  }

  function Incremented(series: map<Labels, int>, l: Labels): map<Labels, int> {
    series[l := (if l in series then series[l] else 0) + 1]
  }

  class Gauge {
    const labelNames: set<string>
    var series: map<Labels, int>

    constructor (labels: seq<string>)
      ensures series == map[] && labelNames == set name | name in labels
    {
      labelNames := set name | name in labels;
      series := map[];
    }

    method Set(intVal: S64, decodedKey: Labels) returns (outcome: Outcome<()>)
      modifies this
      ensures outcome == if decodedKey.Keys == labelNames then Ok(()) else Crash
      ensures series == if decodedKey.Keys == labelNames then old(series)[decodedKey := intVal] else old(series)
    {
      if decodedKey.Keys != labelNames {
        return Crash;
      }
      series := series[decodedKey := intVal];
      return Ok(());
    }
  }

  // ---------------------------------------------------------------- one call

  /** The remembered value and the exported series both stand for the running total `total`. */
  ghost predicate Tracks(s: CounterState, hash: Hasher, l: Labels, total: int) {
    Remembered(s, hash, l) == ToS64(total) && Exported(s, l) == total
  }

  /** Main result for one call: a counter that stands for `total` survives being set to the word of
      `newTotal` and then stands for it, however large the totals, as long as they are less than
      2^63 apart. */
  lemma SetFollowsTotal(hash: Hasher, names: set<string>, s: CounterState, l: Labels, total: int, newTotal: int)
    requires l.Keys == names && Tracks(s, hash, l, total)
    requires total <= newTotal < total + TWO_63
    ensures var r := SetNext(hash, names, s, ToS64(newTotal), l);
            r.alive && Tracks(r.state, hash, l, newTotal)
  {
    DifferenceOfWords(total, newTotal);
  }

  lemma DifferenceOfWords(total: int, newTotal: int)
    requires total <= newTotal < total + TWO_63
    ensures ToS64(ToS64(newTotal) as int - ToS64(total)) == newTotal - total
    ensures ToS64(newTotal) == ToS64(total) <==> newTotal == total
  {
    var a, b := ToS64(newTotal), ToS64(total);
    SumsWrap(a, 0);
    SumsWrap(newTotal, total);
    SumsWrap(a, b);
    assert ToU64(a as int - b) == ToU64(newTotal - total);
    ResidueDecides(newTotal - total, a as int - b);
  }

  /** Other label sets keep their total. */
  lemma SetLeavesOthers(hash: Hasher, names: set<string>, s: CounterState, l: Labels, val: S64, other: Labels, total: int)
    requires hash(other) != hash(l) && Tracks(s, hash, other, total)
    ensures Tracks(SetNext(hash, names, s, val, l).state, hash, other, total)
  {
    assert other != l;
  }

  /** Setting the value already remembered does nothing at all: no series appears, and even foreign labels
      go unnoticed. */
  lemma UnchangedValueDoesNothing(hash: Hasher, names: set<string>, s: CounterState, val: S64, l: Labels)
    requires val == if hash(l) in s.counterMap then s.counterMap[hash(l)] else 0
    ensures SetNext(hash, names, s, val, l) == SetResult(s, true)
  {
  }

  /** Setting another value remembers it, and then ends the process on foreign labels, leaving the series
      alone, or on a negative difference, leaving a series that was absent at zero. */
  lemma NewValueExactly(hash: Hasher, names: set<string>, s: CounterState, val: S64, l: Labels)
    requires val != if hash(l) in s.counterMap then s.counterMap[hash(l)] else 0
    ensures var r := SetNext(hash, names, s, val, l);
            var before := if hash(l) in s.counterMap then s.counterMap[hash(l)] else 0;
            var series := if l in s.series then s.series[l] else 0;
            && r.state.counterMap == s.counterMap[hash(l) := val]
            && (l.Keys != names ==> !r.alive && r.state.series == s.series)
            && (l.Keys == names ==> r.state.series.Keys == s.series.Keys + {l})
            && (l.Keys == names && -TWO_63 <= val as int - before < TWO_63 ==>
                  && (r.alive <==> val > before)
                  && r.state.series[l] == if val > before then series + (val - before) else series)
            && forall other :: other in s.series && other != l ==> other in r.state.series && r.state.series[other] == s.series[other]
  {
    var before := if hash(l) in s.counterMap then s.counterMap[hash(l)] else 0;
    if -TWO_63 <= val as int - before < TWO_63 {
      ResidueDecides(ToS64(val as int - before), val as int - before);
    }
  }

  // ---------------------------------------------------------------- sequences of calls

  /** One call of `Set` with the signed word of a running total. */
  datatype Call = Call(total: int, labels: Labels)

  /** The state after a sequence of calls, or `None` once the process has died. */
  function SetsFrom(hash: Hasher, names: set<string>, start: CounterState, cs: seq<Call>): Option<CounterState> {
    if |cs| == 0 then Some(start)
    else
      var last := cs[|cs| - 1];
      match SetsFrom(hash, names, start, cs[..|cs| - 1])
      case None => None
      case Some(s) =>
        var r := SetNext(hash, names, s, ToS64(last.total), last.labels);
        if r.alive then Some(r.state) else None
  }

  function Sets(hash: Hasher, names: set<string>, cs: seq<Call>): Option<CounterState> {
    SetsFrom(hash, names, NO_SERIES, cs)
  }

  function LastTotal(cs: seq<Call>, l: Labels): int {
    if |cs| == 0 then 0
    else if cs[|cs| - 1].labels == l then cs[|cs| - 1].total
    else LastTotal(cs[..|cs| - 1], l)
  }

  /** Each call's total is at least its label set's previous one, by less than 2^63. */
  predicate Growing(cs: seq<Call>) {
    |cs| > 0 ==>
      var init, last := cs[..|cs| - 1], cs[|cs| - 1];
      Growing(init) && LastTotal(init, last.labels) <= last.total < LastTotal(init, last.labels) + TWO_63
  }

  ghost predicate Uses(cs: seq<Call>, names: set<string>, ls: set<Labels>) {
    forall c :: c in cs ==> c.labels in ls && c.labels.Keys == names
  }

  /** Main result: growing totals never kill the process, and every label set's series equals the
      last total it was set to. */
  lemma {:induction false} SeriesFollowTotals(hash: Hasher, names: set<string>, cs: seq<Call>, ls: set<Labels>)
    requires InjectiveOn(hash, ls) && Uses(cs, names, ls) && Growing(cs)
    ensures Sets(hash, names, cs).Some?
    ensures forall l :: l in ls ==> Tracks(Sets(hash, names, cs).value, hash, l, LastTotal(cs, l))
  {
    if |cs| > 0 {
      var init, last := cs[..|cs| - 1], cs[|cs| - 1];
      SeriesFollowTotals(hash, names, init, ls);
      var s := Sets(hash, names, init).value;
      SetFollowsTotal(hash, names, s, last.labels, LastTotal(init, last.labels), last.total);
      forall l | l in ls && l != last.labels
        ensures Tracks(Sets(hash, names, cs).value, hash, l, LastTotal(cs, l))
      {
        SetLeavesOthers(hash, names, s, last.labels, ToS64(last.total), l, LastTotal(init, l));
      }
    }
  }

  /** Values an `int64` holds without wrapping. */
  predicate InRange(cs: seq<Call>) {
    forall c :: c in cs ==> 0 <= c.total < TWO_63
  }

  predicate NeverDecreasing(cs: seq<Call>) {
    forall i, j :: 0 <= i < j < |cs| && cs[i].labels == cs[j].labels ==> cs[i].total <= cs[j].total
  }

  lemma {:induction false} LastTotalIsOneOfThem(cs: seq<Call>, l: Labels)
    ensures LastTotal(cs, l) == 0 || exists i :: 0 <= i < |cs| && cs[i].labels == l && cs[i].total == LastTotal(cs, l)
  {
    if |cs| > 0 && cs[|cs| - 1].labels != l {
      var init := cs[..|cs| - 1];
      LastTotalIsOneOfThem(init, l);
      if LastTotal(init, l) != 0 {
        var i :| 0 <= i < |init| && init[i].labels == l && init[i].total == LastTotal(init, l);
        assert cs[i] == init[i];
      }
    }
  }

  lemma {:induction false} LastTotalIsLargest(cs: seq<Call>, i: nat)
    requires NeverDecreasing(cs) && i < |cs|
    ensures cs[i].total <= LastTotal(cs, cs[i].labels)
  {
    if cs[|cs| - 1].labels != cs[i].labels {
      LastTotalIsLargest(cs[..|cs| - 1], i);
    }
  }

  lemma {:induction false} NeverDecreasingMeansGrowing(cs: seq<Call>)
    requires InRange(cs)
    ensures NeverDecreasing(cs) <==> Growing(cs)
  {
    if |cs| > 0 {
      var init, last := cs[..|cs| - 1], cs[|cs| - 1];
      NeverDecreasingMeansGrowing(init);
      assert cs == init + [last];
      if NeverDecreasing(init) {
        NotBelowLastIff(init, last);
      }
    }
  }

  /** A further value keeps a never-decreasing sequence so exactly when it is not below its label set's
      last one. */
  lemma NotBelowLastIff(init: seq<Call>, last: Call)
    requires InRange(init + [last]) && NeverDecreasing(init)
    ensures NeverDecreasing(init + [last]) <==> LastTotal(init, last.labels) <= last.total
    ensures last.total < LastTotal(init, last.labels) + TWO_63
  {
    var cs := init + [last];
    LastTotalIsOneOfThem(init, last.labels);
    assert cs[|init|] == last && last in cs;
    if LastTotal(init, last.labels) != 0 {
      var i :| 0 <= i < |init| && init[i].labels == last.labels && init[i].total == LastTotal(init, last.labels);
      assert cs[i] == init[i] && init[i] in cs;
    }
    forall i | 0 <= i < |init|
      ensures init[i].total <= LastTotal(init, init[i].labels) && cs[i] == init[i]
    {
      LastTotalIsLargest(init, i);
    }
  }

  lemma SmallerTotalCrashes(hash: Hasher, names: set<string>, s: CounterState, l: Labels, total: int, newTotal: int)
    requires Tracks(s, hash, l, total) && 0 <= newTotal < total < TWO_63
    ensures !SetNext(hash, names, s, ToS64(newTotal), l).alive
  {
  }

  /** A decrease kills the process. */
  lemma {:induction false} DecreaseCrashes(hash: Hasher, names: set<string>, cs: seq<Call>, ls: set<Labels>)
    requires InjectiveOn(hash, ls) && Uses(cs, names, ls) && InRange(cs) && !Growing(cs)
    ensures Sets(hash, names, cs).None?
  {
    var init, last := cs[..|cs| - 1], cs[|cs| - 1];
    if Growing(init) {
      SeriesFollowTotals(hash, names, init, ls);
      LastTotalIsOneOfThem(init, last.labels);
      SmallerTotalCrashes(hash, names, Sets(hash, names, init).value, last.labels, LastTotal(init, last.labels), last.total);
    } else {
      DecreaseCrashes(hash, names, init, ls);
    }
  }

  /** Main result: for non-negative `int64` values, the counter survives exactly when no label set's
      value ever decreases, and then exports each label set's last value. */
  lemma SetCounterTelescopes(hash: Hasher, names: set<string>, cs: seq<Call>, ls: set<Labels>)
    requires InjectiveOn(hash, ls) && Uses(cs, names, ls) && InRange(cs)
    ensures Sets(hash, names, cs).Some? <==> NeverDecreasing(cs)
    ensures NeverDecreasing(cs) ==> forall l :: l in ls ==> Exported(Sets(hash, names, cs).value, l) == LastTotal(cs, l)
  {
    NeverDecreasingMeansGrowing(cs);
    if NeverDecreasing(cs) {
      SeriesFollowTotals(hash, names, cs, ls);
    } else {
      DecreaseCrashes(hash, names, cs, ls);
    }
  }

  // ---------------------------------------------------------------- order of calls

  predicate DistinctHashes(hash: Hasher, cs: seq<Call>) {
    forall i, j :: 0 <= i < j < |cs| ==> hash(cs[i].labels) != hash(cs[j].labels)
  }

  /** What the instrument holds for one label set, presence included. */
  function Slot(s: CounterState, hash: Hasher, l: Labels): (Option<S64>, Option<int>) {
    (if hash(l) in s.counterMap then Some(s.counterMap[hash(l)]) else None,
     if l in s.series then Some(s.series[l]) else None)
  }

  lemma SlotsAreIndependent(hash: Hasher, names: set<string>, s: CounterState, c: Call, other: Labels)
    requires hash(other) != hash(c.labels)
    ensures Slot(SetNext(hash, names, s, ToS64(c.total), c.labels).state, hash, other) == Slot(s, hash, other)
  {
    assert other != c.labels;
  }

  /** A call's effect on its own slot depends on that slot alone. */
  lemma SlotDecides(hash: Hasher, names: set<string>, s: CounterState, t: CounterState, c: Call)
    requires Slot(s, hash, c.labels) == Slot(t, hash, c.labels)
    ensures var r, q := SetNext(hash, names, s, ToS64(c.total), c.labels), SetNext(hash, names, t, ToS64(c.total), c.labels);
            r.alive == q.alive && Slot(r.state, hash, c.labels) == Slot(q.state, hash, c.labels)
  {
  }

  ghost predicate Untouched(hash: Hasher, cs: seq<Call>, l: Labels) {
    forall c :: c in cs ==> hash(c.labels) != hash(l)
  }

  lemma {:induction false} UntouchedSlots(hash: Hasher, names: set<string>, start: CounterState, cs: seq<Call>, l: Labels)
    requires Untouched(hash, cs, l) && SetsFrom(hash, names, start, cs).Some?
    ensures Slot(SetsFrom(hash, names, start, cs).value, hash, l) == Slot(start, hash, l)
  {
    if |cs| > 0 {
      var init, last := cs[..|cs| - 1], cs[|cs| - 1];
      UntouchedSlots(hash, names, start, init, l);
      SlotsAreIndependent(hash, names, SetsFrom(hash, names, start, init).value, last, l);
    }
  }

  /** With distinct hashes every call acts as if it were the only one. */
  lemma {:induction false} EachCallActsAlone(hash: Hasher, names: set<string>, start: CounterState, cs: seq<Call>)
    requires DistinctHashes(hash, cs)
    ensures SetsFrom(hash, names, start, cs).Some? <==>
            forall c :: c in cs ==> SetNext(hash, names, start, ToS64(c.total), c.labels).alive
    ensures SetsFrom(hash, names, start, cs).Some? ==>
              forall c :: c in cs ==>
                Slot(SetsFrom(hash, names, start, cs).value, hash, c.labels)
                == Slot(SetNext(hash, names, start, ToS64(c.total), c.labels).state, hash, c.labels)
  {
    if |cs| > 0 {
      var init, last := cs[..|cs| - 1], cs[|cs| - 1];
      assert cs == init + [last];
      EachCallActsAlone(hash, names, start, init);
      if SetsFrom(hash, names, start, init).Some? {
        var s := SetsFrom(hash, names, start, init).value;
        UntouchedSlots(hash, names, start, init, last.labels);
        SlotDecides(hash, names, s, start, last);
        forall c | c in init
          ensures Slot(SetNext(hash, names, s, ToS64(last.total), last.labels).state, hash, c.labels) == Slot(s, hash, c.labels)
        {
          SlotsAreIndependent(hash, names, s, last, c.labels);
        }
      }
    }
  }

  lemma {:induction false} UntouchedHash(hash: Hasher, names: set<string>, start: CounterState, cs: seq<Call>, h: nat)
    requires SetsFrom(hash, names, start, cs).Some? && forall c :: c in cs ==> hash(c.labels) != h
    ensures var s := SetsFrom(hash, names, start, cs).value;
            (h in s.counterMap <==> h in start.counterMap) && (h in s.counterMap ==> s.counterMap[h] == start.counterMap[h])
  {
    if |cs| > 0 {
      UntouchedHash(hash, names, start, cs[..|cs| - 1], h);
    }
  }

  lemma {:induction false} UntouchedSeries(hash: Hasher, names: set<string>, start: CounterState, cs: seq<Call>, l: Labels)
    requires SetsFrom(hash, names, start, cs).Some? && forall c :: c in cs ==> c.labels != l
    ensures var s := SetsFrom(hash, names, start, cs).value;
            (l in s.series <==> l in start.series) && (l in s.series ==> s.series[l] == start.series[l])
  {
    if |cs| > 0 {
      UntouchedSeries(hash, names, start, cs[..|cs| - 1], l);
    }
  }

  lemma SameMemory(hash: Hasher, names: set<string>, start: CounterState, cs: seq<Call>, ds: seq<Call>, h: nat)
    requires DistinctHashes(hash, cs) && DistinctHashes(hash, ds) && forall c :: c in cs <==> c in ds
    requires SetsFrom(hash, names, start, cs).Some? && SetsFrom(hash, names, start, ds).Some?
    ensures var s, t := SetsFrom(hash, names, start, cs).value, SetsFrom(hash, names, start, ds).value;
            (h in s.counterMap <==> h in t.counterMap) && (h in s.counterMap ==> s.counterMap[h] == t.counterMap[h])
  {
    if c :| c in cs && hash(c.labels) == h {
      EachCallActsAlone(hash, names, start, cs);
      EachCallActsAlone(hash, names, start, ds);
      assert Slot(SetsFrom(hash, names, start, cs).value, hash, c.labels)
          == Slot(SetsFrom(hash, names, start, ds).value, hash, c.labels);
    } else {
      UntouchedHash(hash, names, start, cs, h);
      UntouchedHash(hash, names, start, ds, h);
    }
  }

  lemma SameSeries(hash: Hasher, names: set<string>, start: CounterState, cs: seq<Call>, ds: seq<Call>, l: Labels)
    requires DistinctHashes(hash, cs) && DistinctHashes(hash, ds) && forall c :: c in cs <==> c in ds
    requires SetsFrom(hash, names, start, cs).Some? && SetsFrom(hash, names, start, ds).Some?
    ensures var s, t := SetsFrom(hash, names, start, cs).value, SetsFrom(hash, names, start, ds).value;
            (l in s.series <==> l in t.series) && (l in s.series ==> s.series[l] == t.series[l])
  {
    if c :| c in cs && c.labels == l {
      EachCallActsAlone(hash, names, start, cs);
      EachCallActsAlone(hash, names, start, ds);
      assert Slot(SetsFrom(hash, names, start, cs).value, hash, c.labels)
          == Slot(SetsFrom(hash, names, start, ds).value, hash, c.labels);
    } else {
      UntouchedSeries(hash, names, start, cs, l);
      UntouchedSeries(hash, names, start, ds, l);
    }
  }

  /** Main result: calls for distinct label sets commute. Any two orders of the same calls are
      survived or not together, and leave the same instrument. */
  lemma OrderOfCallsIrrelevant(hash: Hasher, names: set<string>, start: CounterState, cs: seq<Call>, ds: seq<Call>)
    requires DistinctHashes(hash, cs) && DistinctHashes(hash, ds)
    requires forall c :: c in cs <==> c in ds
    ensures SetsFrom(hash, names, start, cs) == SetsFrom(hash, names, start, ds)
  {
    EachCallActsAlone(hash, names, start, cs);
    EachCallActsAlone(hash, names, start, ds);
    if SetsFrom(hash, names, start, cs).Some? {
      var s, t := SetsFrom(hash, names, start, cs).value, SetsFrom(hash, names, start, ds).value;
      assert s.counterMap == t.counterMap by {
        forall h
          ensures h in s.counterMap <==> h in t.counterMap
          ensures h in s.counterMap ==> s.counterMap[h] == t.counterMap[h]
        {
          SameMemory(hash, names, start, cs, ds, h);
        }
      }
      assert s.series == t.series by {
        forall l
          ensures l in s.series <==> l in t.series
          ensures l in s.series ==> s.series[l] == t.series[l]
        {
          SameSeries(hash, names, start, cs, ds, l);
        }
      }
    }
  }
}
