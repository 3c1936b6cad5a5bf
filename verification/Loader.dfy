/** The loader (pkg/loader/loader.go): which maps `Parse` admits, and how a poll of a hash map and
    a ring-buffer record reach the instruments. */
module Loading {
  import opened Outcomes
  import opened Words
  import opened Bytes
  import opened Btf
  import opened Decoding
  import opened RoundTrip
  import opened Labelling
  import opened Stats

  // ---------------------------------------------------------------- Parse

  datatype MapType = RingBuf | Hash | ArrayMap | PerfEventArray | OtherMap

  datatype BtfMap = BtfMap(key: BtfType, value: BtfType)

  datatype MapSpec = MapSpec(sectionName: string, mapType: MapType, btf: Option<BtfMap>, valueSize: nat)

  datatype WatchedMap = WatchedMap(name: string, labels: seq<string>, mapType: MapType, btf: Option<BtfMap>,
                                   mapSpec: MapSpec, valueStruct: Option<seq<Member>>)

  datatype ParsedELF = ParsedELF(specs: map<string, MapSpec>, watchedMaps: map<string, WatchedMap>)

  /** `strings.Contains`. */
  predicate Contains(s: string, sub: string) {
    exists i :: 0 <= i <= |s| - |sub| && StartsAt(s, sub, i)
  }

  predicate StartsAt(s: string, sub: string, i: nat)
    requires i <= |s| - |sub|
  {
    s[i..i + |sub|] == sub
  }

  predicate IsPrintMap(spec: MapSpec) {
    Contains(spec.sectionName, "print")
  }

  predicate IsGaugeMap(spec: MapSpec) {
    Contains(spec.sectionName, "gauge")
  }

  predicate IsCounterMap(spec: MapSpec) {
    Contains(spec.sectionName, "counter")
  }

  predicate IsTrackedMap(spec: MapSpec) {
    IsCounterMap(spec) || IsGaugeMap(spec) || IsPrintMap(spec)
  }

  /** The map's own members become labels: of the value for a ring buffer, of the key for a hash. */
  function LabelStruct(spec: MapSpec): Option<BtfType> {
    if spec.btf.None? then None
    else if spec.mapType == RingBuf then Some(spec.btf.value.value)
    else if spec.mapType == Hash then Some(spec.btf.value.key)
    else None
  }

  /** A tracked map the loader can watch. */
  predicate Watchable(spec: MapSpec) {
    var s := LabelStruct(spec);
    s.Some? && s.value.Struct?
  }

  /** A ring buffer's BTF never reaches the kernel. */
  function Stripped(spec: MapSpec): MapSpec {
    if spec.mapType in {RingBuf, PerfEventArray} then spec.(btf := None, valueSize := 0) else spec
  }

  function Watched(name: string, spec: MapSpec): WatchedMap
    requires Watchable(spec)
  {
    var ms := LabelStruct(spec).value.members;
    WatchedMap(name, MemberNames(ms), spec.mapType, spec.btf, Stripped(spec), if spec.mapType == RingBuf then Some(ms) else None)
  }

  /** The body of `Parse`'s loop for one tracked map. A ring buffer's or perf array's value type is looked at
      first; without any type information the process ends. */
  method ParseMap(name: string, spec: MapSpec) returns (result: Outcome<WatchedMap>, mutated: MapSpec)
    ensures result.Ok? <==> Watchable(spec)
    ensures result.Ok? ==> result.value == Watched(name, spec) && mutated == Stripped(spec)
    ensures result.Crash? <==> spec.btf.None? && (spec.mapType == RingBuf || spec.mapType == PerfEventArray || spec.mapType == Hash)
    ensures result == Err(RingValueNotAStruct) <==>
            spec.btf.Some? && (spec.mapType == RingBuf || spec.mapType == PerfEventArray) && !spec.btf.value.value.Struct?
    ensures result == Err(HashKeyNotAStruct) <==> spec.mapType == Hash && spec.btf.Some? && !spec.btf.value.key.Struct?
    ensures result == Err(UnsupportedMapType) <==>
            || spec.mapType == ArrayMap || spec.mapType == OtherMap
            || (spec.mapType == PerfEventArray && spec.btf.Some? && spec.btf.value.value.Struct?)
  {
    mutated := spec;
    var watchedMap := WatchedMap(name, [], spec.mapType, spec.btf, spec, None);
    if watchedMap.mapType == RingBuf || watchedMap.mapType == PerfEventArray {
      if mutated.btf.None? {
        return Crash, mutated;
      }
      if !mutated.btf.value.value.Struct? {
        return Err(RingValueNotAStruct), mutated;
      }
      mutated := mutated.(btf := None, valueSize := 0);
      watchedMap := watchedMap.(mapSpec := mutated);
    }
    match mutated.mapType {
      case RingBuf =>
        var structType := watchedMap.btf.value.value;
        watchedMap := watchedMap.(valueStruct := Some(structType.members));
        var labelKeys := GetLabelsForBtfStruct(structType.members);
        watchedMap := watchedMap.(labels := labelKeys);
      case Hash =>
        if mutated.btf.None? {
          return Crash, mutated;
        }
        if !mutated.btf.value.key.Struct? {
          return Err(HashKeyNotAStruct), mutated;
        }
        var labelKeys := GetLabelsForBtfStruct(mutated.btf.value.key.members);
        watchedMap := watchedMap.(labels := labelKeys);
      case _ =>
        return Err(UnsupportedMapType), mutated;
    }
    return Ok(watchedMap), mutated;
  }

  /** `watched` holds exactly the tracked maps, each with its labels. */
  ghost predicate WatchesTracked(maps: map<string, MapSpec>, watched: map<string, WatchedMap>) {
    && (forall name :: name in watched <==> name in maps && IsTrackedMap(maps[name]))
    && (forall name :: name in watched ==> Watchable(maps[name]) && watched[name] == Watched(name, maps[name]))
  }

  /** Main result: `Parse` succeeds exactly when every tracked map is a ring buffer with a struct
      value or a hash with a struct key, and then watches exactly the tracked maps. */
  method Parse(maps: map<string, MapSpec>) returns (result: Outcome<ParsedELF>)
    ensures result.Ok? <==> forall name :: name in maps && IsTrackedMap(maps[name]) ==> Watchable(maps[name])
    ensures result.Ok? ==> WatchesTracked(maps, result.value.watchedMaps)
    ensures result.Ok? ==>
              && result.value.specs.Keys == maps.Keys
              && (forall name :: name in maps ==>
                    result.value.specs[name] == if IsTrackedMap(maps[name]) then Stripped(maps[name]) else maps[name])
  {
    var specs := maps;
    var watchedMaps: map<string, WatchedMap> := map[];
    var todo := maps.Keys;
    while todo != {}
      invariant todo <= maps.Keys && specs.Keys == maps.Keys
      invariant forall name :: name in watchedMaps <==> name in maps.Keys - todo && IsTrackedMap(maps[name])
      invariant forall name :: name in watchedMaps ==> Watchable(maps[name]) && watchedMaps[name] == Watched(name, maps[name])
      invariant forall name :: name in maps ==>
                                 specs[name] == if name !in todo && IsTrackedMap(maps[name]) then Stripped(maps[name]) else maps[name]
    {
      var name :| name in todo;
      todo := todo - {name};
      if !IsTrackedMap(maps[name]) {
        continue;
      }
      var watchedMap, mutated := ParseMap(name, maps[name]);
      if watchedMap.IsFailure() {
        return watchedMap.PropagateFailure();
      }
      specs := specs[name := mutated];
      watchedMaps := watchedMaps[name := watchedMap.value];
    }
    return Ok(ParsedELF(specs, watchedMaps));
  }

  /** Main result: what is watched of an admitted map, stated from its spec. A ring buffer's labels are its
      value's members, by which its records are decoded, and its type information is dropped; a hash map's
      labels are its key's members, and its spec is kept for the poll. */
  lemma WatchedExactly(name: string, spec: MapSpec)
    ensures Watchable(spec) <==>
            && spec.btf.Some?
            && ((spec.mapType == RingBuf && spec.btf.value.value.Struct?) || (spec.mapType == Hash && spec.btf.value.key.Struct?))
    ensures Watchable(spec) ==>
              var w := Watched(name, spec);
              && w.name == name && w.mapType == spec.mapType && w.btf == spec.btf
              && w.mapSpec.sectionName == spec.sectionName && w.mapSpec.mapType == spec.mapType
              && (spec.mapType == RingBuf ==>
                    && w.valueStruct == Some(spec.btf.value.value.members)
                    && w.labels == MemberNames(spec.btf.value.value.members)
                    && w.mapSpec.btf == None && w.mapSpec.valueSize == 0)
              && (spec.mapType == Hash ==>
                    && w.valueStruct == None
                    && w.labels == MemberNames(spec.btf.value.key.members)
                    && w.mapSpec == spec)
  {
  }

  /** `strings.Contains`: `s` is something, then `sub`, then something. */
  lemma ContainsMeansPart(s: string, sub: string)
    ensures Contains(s, sub) <==> exists before, after :: s == before + sub + after
  {
    if Contains(s, sub) {
      var i :| 0 <= i <= |s| - |sub| && StartsAt(s, sub, i);
      assert s == s[..i] + sub + s[i + |sub|..];
    }
    if before, after :| s == before + sub + after {
      assert s[|before|..|before| + |sub|] == sub;
      assert StartsAt(s, sub, |before|);
    }
  }

  lemma FourthOnward(sub: string)
    ensures Contains(".maps." + sub, sub)
  {
    var s := ".maps." + sub;
    assert s[6..6 + |sub|] == sub;
    assert StartsAt(s, sub, 6);
  }

  lemma NotContained(s: string, sub: string, c: char)
    requires c in sub && c !in s
    ensures !Contains(s, sub)
  {
    var k :| 0 <= k < |sub| && sub[k] == c;
    forall i | 0 <= i <= |s| - |sub|
      ensures !StartsAt(s, sub, i)
    {
      assert s[i..i + |sub|][k] == s[i + k] && s[i + k] in s;
    }
  }

  /** Main result: the sections the documentation names select their own kind, and a plain ".maps" none. */
  lemma SectionsSelect(spec: MapSpec)
    ensures spec.sectionName == ".maps.counter" ==> IsCounterMap(spec) && !IsGaugeMap(spec) && !IsPrintMap(spec) && IsTrackedMap(spec)
    ensures spec.sectionName == ".maps.gauge" ==> !IsCounterMap(spec) && IsGaugeMap(spec) && !IsPrintMap(spec) && IsTrackedMap(spec)
    ensures spec.sectionName == ".maps.print" ==> !IsCounterMap(spec) && !IsGaugeMap(spec) && IsPrintMap(spec) && IsTrackedMap(spec)
    ensures spec.sectionName == ".maps" ==> !IsTrackedMap(spec)
  {
    FourthOnward("counter");
    FourthOnward("gauge");
    FourthOnward("print");
    assert ".maps." + "counter" == ".maps.counter" && ".maps." + "gauge" == ".maps.gauge" && ".maps." + "print" == ".maps.print";
    OtherWords();
  }

  lemma OtherWords()
    ensures !Contains(".maps.counter", "gauge") && !Contains(".maps.counter", "print")
    ensures !Contains(".maps.gauge", "counter") && !Contains(".maps.gauge", "print")
    ensures !Contains(".maps.print", "counter") && !Contains(".maps.print", "gauge")
    ensures !Contains(".maps", "counter") && !Contains(".maps", "gauge") && !Contains(".maps", "print")
  {
    assert "gauge"[0] == 'g' && "print"[2] == 'i' && "counter"[0] == 'c';
    NotContained(".maps.counter", "gauge", 'g');
    NotContained(".maps.counter", "print", 'i');
    NotContained(".maps.gauge", "counter", 'c');
    NotContained(".maps.gauge", "print", 'i');
    NotContained(".maps.print", "counter", 'c');
    NotContained(".maps.print", "gauge", 'g');
    NotContained(".maps", "counter", 'c');
    NotContained(".maps", "gauge", 'g');
    NotContained(".maps", "print", 'i');
  }

  /** Any section is tracked exactly if it contains one of the three words. */
  lemma TrackedMeansSomeWord(spec: MapSpec)
    ensures IsTrackedMap(spec) <==>
            Contains(spec.sectionName, "counter") || Contains(spec.sectionName, "gauge") || Contains(spec.sectionName, "print")
  {
  }

  // ---------------------------------------------------------------- instruments

  datatype SetInstrument = CounterInstrument(counter: SetCounter) | GaugeInstrument(gauge: Gauge) | Noop

  /** The contents of a set instrument. */
  datatype View =
    | CounterView(hash: Hasher, names: set<string>, state: CounterState)
    | GaugeView(gaugeNames: set<string>, gauge: map<Labels, int>)
    | NoView

  ghost function Objects(i: SetInstrument): set<object> {
    match i
    case CounterInstrument(c) => {c}
    case GaugeInstrument(g) => {g}
    case Noop => {}
  }

  ghost function ViewOf(i: SetInstrument): View
    reads Objects(i)
  {
    match i
    case CounterInstrument(c) => CounterView(c.hash, c.labelNames, c.Now())
    case GaugeInstrument(g) => GaugeView(g.labelNames, g.series)
    case Noop => NoView
  }

  ghost function SetOn(v: View, c: Call): (View, bool) {
    match v
    case CounterView(hash, names, s) =>
      var r := SetNext(hash, names, s, ToS64(c.total), c.labels);
      (v.(state := r.state), r.alive)
    case GaugeView(names, g) =>
      if c.labels.Keys == names then (v.(gauge := g[c.labels := ToS64(c.total)]), true) else (v, false)
    case NoView => (v, true)
  }

  /** `WatchMaps`' choice of an instrument for a hash map. */
  method NewSetInstrument(w: WatchedMap, hash: Hasher) returns (i: SetInstrument)
    ensures fresh(Objects(i))
    ensures ViewOf(i) == if IsCounterMap(w.mapSpec) then CounterView(hash, LabelNames(w), NO_SERIES)
                         else if IsGaugeMap(w.mapSpec) then GaugeView(LabelNames(w), map[])
                         else NoView
  {
    if IsCounterMap(w.mapSpec) {
      var c := new SetCounter(hash, w.labels);
      i := CounterInstrument(c);
    } else if IsGaugeMap(w.mapSpec) {
      var g := new Gauge(w.labels);
      i := GaugeInstrument(g);
    } else {
      i := Noop;
    }
  }

  function LabelNames(w: WatchedMap): set<string> {
    set name | name in w.labels
  }

  /** `instrument.Set(ctx, int64(intVal), stringLabels)`. */
  method SetInstrumentTo(i: SetInstrument, call: Call) returns (outcome: Outcome<()>)
    modifies Objects(i)
    ensures var (v, alive) := SetOn(old(ViewOf(i)), call);
            ViewOf(i) == v && outcome == if alive then Ok(()) else Crash
  {
    match i {
      case CounterInstrument(c) => outcome := c.Set(ToS64(call.total), call.labels);
      case GaugeInstrument(g) => outcome := g.Set(ToS64(call.total), call.labels);
      case Noop => outcome := Ok(());
    }
  }

  // ---------------------------------------------------------------- polling a hash map

  /** One key and value as the kernel's iterator delivers them. */
  datatype Entry = Entry(key: ByteString, value: ByteString)

  /** How the bytes of a map are read. */
  datatype Reading = Reading(formats: Formats, order: ByteOrder, key: BtfType, value: BtfType)

  datatype KvPair = KvPair(key: Labels, value: string)

  /** The labels and value an entry stands for. The process exits on a value that is not a plain
      unsigned 64-bit integer. */
  function ReadEntry(r: Reading, e: Entry): (c: Outcome<Call>)
    ensures c.Ok? ==> c.value.total >= 0
  {
    var decodedKey :- Decode(r.order, r.key, e.key);
    var decodedValue :- Decode(r.order, r.value, e.value);
    if |decodedValue| > 1 || "" !in decodedValue then Crash
    else
      var v := decodedValue[""];
      if v.Uint? && v.width == 8 then Ok(Call(v.n, Stringified(r.formats, decodedKey))) else Crash
  }

  /** Main result: an entry is read exactly if its key decodes and its value decodes to a single unsigned
      64-bit integer; its call has that integer and the key's labels. A decoding failure is passed on, the
      key's first; any other value ends the process. */
  lemma ReadEntryExactly(r: Reading, e: Entry)
    ensures var key, value, c := Decode(r.order, r.key, e.key), Decode(r.order, r.value, e.value), ReadEntry(r, e);
            && (!key.Ok? ==> c == key.PropagateFailure())
            && (key.Ok? && !value.Ok? ==> c == value.PropagateFailure())
            && (c.Ok? <==> key.Ok? && value.Ok? && exists n: nat :: value.value == map["" := Uint(8, n)])
            && (c.Ok? ==> value.value == map["" := Uint(8, c.value.total)] && c.value.labels == Stringified(r.formats, key.value))
            && (key.Ok? && value.Ok? && !c.Ok? ==> c == Crash)
  {
    var value := Decode(r.order, r.value, e.value);
    if value.Ok? && |value.value| <= 1 && "" in value.value {
      OnlyKey(value.value, "");
    }
  }

  lemma OnlyKey(m: map<string, Value>, k: string)
    requires |m| <= 1 && k in m
    ensures m == map[k := m[k]]
  {
    forall j | j in m
      ensures j == k
    {
      if j != k {
        assert |{j, k}| == 2 && {j, k} <= m.Keys;
        SmallerSet({j, k}, m.Keys);
      }
    }
  }

  lemma SmallerSet(a: set<string>, b: set<string>)
    requires a <= b
    ensures |a| <= |b|
  {
    assert |b| == |a| + |b - a|;
  }

  /** A call's entry as shown to the watcher: the value is printed unsigned. */
  function Shown(c: Call): KvPair
    requires c.total >= 0
  {
    KvPair(c.labels, Decimal(c.total))
  }

  datatype PollState = PollState(view: View, outcome: Outcome<()>, sent: seq<KvPair>)

  /** Reading, setting and sending the entries of one poll in the order delivered. */
  ghost function Poll(r: Reading, start: View, entries: seq<Entry>): PollState {
    if |entries| == 0 then PollState(start, Ok(()), [])
    else
      var done := Poll(r, start, entries[..|entries| - 1]);
      if !done.outcome.Ok? then done
      else
        match ReadEntry(r, entries[|entries| - 1])
        case Err(e) => done.(outcome := Err(e))
        case Crash => done.(outcome := Crash)
        case Ok(c) =>
          var (v, alive) := SetOn(done.view, c);
          if alive then PollState(v, Ok(()), done.sent + [Shown(c)]) else done.(view := v, outcome := Crash)
  }

  lemma {:induction false} FailedPollStays(r: Reading, start: View, entries: seq<Entry>, n: nat)
    requires n <= |entries| && !Poll(r, start, entries[..n]).outcome.Ok?
    ensures Poll(r, start, entries) == Poll(r, start, entries[..n])
  {
    if n < |entries| {
      var init := entries[..|entries| - 1];
      assert init[..n] == entries[..n];
      FailedPollStays(r, start, init, n);
    } else {
      assert entries[..n] == entries;
    }
  }

  /** How one more entry extends a poll that is still going. */
  lemma PollStep(r: Reading, start: View, entries: seq<Entry>, i: nat)
    requires i < |entries| && Poll(r, start, entries[..i]).outcome.Ok?
    ensures var done, next, c := Poll(r, start, entries[..i]), Poll(r, start, entries[..i + 1]), ReadEntry(r, entries[i]);
            && (!c.Ok? ==> next == PollState(done.view, c.PropagateFailure(), done.sent))
            && (c.Ok? ==> var (v, alive) := SetOn(done.view, c.value);
                          next == if alive then PollState(v, Ok(()), done.sent + [Shown(c.value)])
                                  else PollState(v, Crash, done.sent))
  {
    var upTo := entries[..i + 1];
    assert upTo[..|upTo| - 1] == entries[..i] && upTo[|upTo| - 1] == entries[i];
  }

  /** A poll of a single readable entry. */
  lemma PollOne(r: Reading, v: View, e: Entry)
    requires ReadEntry(r, e).Ok?
    ensures var (next, alive) := SetOn(v, ReadEntry(r, e).value);
            Poll(r, v, [e]) == if alive then PollState(next, Ok(()), [Shown(ReadEntry(r, e).value)]) else PollState(next, Crash, [])
  {
    var entries := [e];
    assert entries[..0] == [] && entries[..1] == entries;
    assert Poll(r, v, []) == PollState(v, Ok(()), []);
    PollStep(r, v, entries, 0);
  }

  /** The part of `startHashMap`'s inner loop that decodes one entry. */
  method DecodeEntry(d: Decoder, r: Reading, e: Entry) returns (result: Outcome<Call>)
    requires d.order == r.order
    modifies d
    ensures result == ReadEntry(r, e)
  {
    var decodedKey := d.DecodeBtfBinary(r.key, e.key);
    if decodedKey.IsFailure() {
      return decodedKey.PropagateFailure();
    }
    var decodedValue := d.DecodeBtfBinary(r.value, e.value);
    if decodedValue.IsFailure() {
      return decodedValue.PropagateFailure();
    }
    if |decodedValue.value| > 1 {
      return Crash;
    }
    if "" !in decodedValue.value || !(decodedValue.value[""].Uint? && decodedValue.value[""].width == 8) {
      return Crash;
    }
    var stringLabels := Stringify(r.formats, decodedKey.value);
    return Ok(Call(decodedValue.value[""].n, stringLabels));
  }

  /** The inner loop of `startHashMap`. */
  method PollHashMap(d: Decoder, r: Reading, entries: seq<Entry>, instrument: SetInstrument)
    returns (outcome: Outcome<()>, sent: seq<KvPair>)
    requires d.order == r.order && d !in Objects(instrument)
    modifies d, Objects(instrument)
    ensures PollState(ViewOf(instrument), outcome, sent) == Poll(r, old(ViewOf(instrument)), entries)
  {
    ghost var start := ViewOf(instrument);
    sent := [];
    for i := 0 to |entries|
      invariant PollState(ViewOf(instrument), Ok(()), sent) == Poll(r, start, entries[..i])
    {
      PollStep(r, start, entries, i);
      var read := DecodeEntry(d, r, entries[i]);
      if read.IsFailure() {
        FailedPollStays(r, start, entries, i + 1);
        return read.PropagateFailure(), sent;
      }
      var applied := SetInstrumentTo(instrument, read.value);
      if applied.IsFailure() {
        FailedPollStays(r, start, entries, i + 1);
        return Crash, sent;
      }
      sent := sent + [Shown(read.value)];
    }
    assert entries[..|entries|] == entries;
    return Ok(()), sent;
  }

  // ---------------------------------------------------------------- ring buffers

  /** `MissingIncrement` is the nil interface left for a gauge section: calling it panics. */
  datatype IncrementInstrument = CountingIncrement(counter: IncrementCounter) | NoopIncrement | MissingIncrement

  datatype IncrementView = CountView(names: set<string>, series: map<Labels, int>) | NoCount | NoInstrument

  ghost function Counters(i: IncrementInstrument): set<object> {
    if i.CountingIncrement? then {i.counter} else {}
  }

  ghost function IncrementViewOf(i: IncrementInstrument): IncrementView
    reads Counters(i)
  {
    match i
    case CountingIncrement(c) => CountView(c.labelNames, c.series)
    case NoopIncrement => NoCount
    case MissingIncrement => NoInstrument
  }

  ghost function IncrementOn(v: IncrementView, l: Labels): (IncrementView, bool) {
    match v
    case CountView(names, series) =>
      if l.Keys == names then (v.(series := Incremented(series, l)), true) else (v, false)
    case NoCount => (v, true)
    case NoInstrument => (v, false)
  }

  /** `WatchMaps`' choice of an instrument for a ring buffer. */
  function FirstIncrement(w: WatchedMap): IncrementView {
    if IsCounterMap(w.mapSpec) then CountView(LabelNames(w), map[])
    else if IsPrintMap(w.mapSpec) then NoCount
    else NoInstrument
  }

  method NewIncrement(w: WatchedMap) returns (i: IncrementInstrument)
    ensures fresh(Counters(i)) && IncrementViewOf(i) == FirstIncrement(w)
  {
    i := MissingIncrement;
    if IsCounterMap(w.mapSpec) {
      var c := new IncrementCounter(w.labels);
      i := CountingIncrement(c);
    } else if IsPrintMap(w.mapSpec) {
      i := NoopIncrement;
    }
  }

  function ReadRecord(f: Formats, order: ByteOrder, ms: seq<Member>, raw: ByteString): Outcome<Labels> {
    var result :- Decode(order, Struct(ms), raw);
    Ok(Stringified(f, result))
  }

  /** Main result: a record is read exactly if it decodes as the struct, and its labels show its fields; any
      failure to decode is passed on. */
  lemma ReadRecordExactly(f: Formats, order: ByteOrder, ms: seq<Member>, raw: ByteString)
    ensures var decoded, r := Decode(order, Struct(ms), raw), ReadRecord(f, order, ms, raw);
            if !decoded.Ok? then r == decoded.PropagateFailure()
            else
              && r.Ok? && r.value.Keys == decoded.value.Keys
              && forall k :: k in decoded.value ==> ShowsValue(f, r.value[k], decoded.value[k])
  {
    var decoded := Decode(order, Struct(ms), raw);
    if decoded.Ok? {
      forall k | k in decoded.value
        ensures ShowsValue(f, Stringified(f, decoded.value)[k], decoded.value[k])
      {
        LabelsShowValues(f, decoded.value, k);
      }
    }
  }

  datatype RingState = RingState(view: IncrementView, outcome: Outcome<()>, sent: seq<KvPair>)

  /** One more record, unless an earlier one ended the loop. */
  ghost function OneRecord(f: Formats, order: ByteOrder, ms: seq<Member>, s: RingState, raw: ByteString): RingState {
    if !s.outcome.Ok? then s
    else
      match ReadRecord(f, order, ms, raw)
      case Err(e) => s.(outcome := Err(e))
      case Crash => s.(outcome := Crash)
      case Ok(labels) =>
        var (v, alive) := IncrementOn(s.view, labels);
        if alive then RingState(v, Ok(()), s.sent + [KvPair(labels, "")]) else s.(view := v, outcome := Crash)
  }

  /** Decoding, counting and sending records in order, up to the first failure. */
  ghost function Ring(f: Formats, order: ByteOrder, ms: seq<Member>, start: IncrementView, records: seq<ByteString>): RingState {
    if |records| == 0 then RingState(start, Ok(()), [])
    else OneRecord(f, order, ms, Ring(f, order, ms, start, records[..|records| - 1]), records[|records| - 1])
  }

  lemma RingStep(f: Formats, order: ByteOrder, ms: seq<Member>, start: IncrementView, records: seq<ByteString>, i: nat)
    requires i < |records|
    ensures Ring(f, order, ms, start, records[..i + 1]) == OneRecord(f, order, ms, Ring(f, order, ms, start, records[..i]), records[i])
  {
    var upTo := records[..i + 1];
    assert upTo[..|upTo| - 1] == records[..i] && upTo[|upTo| - 1] == records[i];
  }

  lemma {:induction false} FailedRingStays(f: Formats, order: ByteOrder, ms: seq<Member>, start: IncrementView,
                                           records: seq<ByteString>, n: nat)
    requires n <= |records| && !Ring(f, order, ms, start, records[..n]).outcome.Ok?
    ensures Ring(f, order, ms, start, records) == Ring(f, order, ms, start, records[..n])
  {
    if n < |records| {
      var init := records[..|records| - 1];
      assert init[..n] == records[..n];
      FailedRingStays(f, order, ms, start, init, n);
    } else {
      assert records[..n] == records;
    }
  }

  /** The body of `startRingBuf`'s loop for one record, up to `SendEntry`. */
  method HandleRecord(d: Decoder, f: Formats, valueStruct: seq<Member>, raw: ByteString, increment: IncrementInstrument)
    returns (outcome: Outcome<KvPair>)
    requires d !in Counters(increment)
    modifies d, Counters(increment)
    ensures var labels := ReadRecord(f, d.order, valueStruct, raw);
            && (!labels.Ok? ==> outcome == labels.PropagateFailure() && IncrementViewOf(increment) == old(IncrementViewOf(increment)))
            && (labels.Ok? ==>
                  var (v, alive) := IncrementOn(old(IncrementViewOf(increment)), labels.value);
                  IncrementViewOf(increment) == v && outcome == if alive then Ok(KvPair(labels.value, "")) else Crash)
  {
    var result := d.DecodeBtfBinary(Struct(valueStruct), raw);
    if result.IsFailure() {
      return result.PropagateFailure();
    }
    var stringLabels := Stringify(f, result.value);
    match increment {
      case CountingIncrement(c) =>
        var incremented := c.Increment(stringLabels);
        if incremented.IsFailure() {
          return Crash;
        }
      case NoopIncrement =>
      case MissingIncrement => return Crash;
    }
    return Ok(KvPair(stringLabels, ""));
  }

  /** `startRingBuf` on the records read until the reader is closed. */
  method StartRingBuf(d: Decoder, f: Formats, valueStruct: seq<Member>, records: seq<ByteString>, increment: IncrementInstrument)
    returns (outcome: Outcome<()>, sent: seq<KvPair>)
    requires d !in Counters(increment)
    modifies d, Counters(increment)
    ensures RingState(IncrementViewOf(increment), outcome, sent)
            == Ring(f, d.order, valueStruct, old(IncrementViewOf(increment)), records)
  {
    ghost var start := IncrementViewOf(increment);
    sent := [];
    for i := 0 to |records|
      invariant RingState(IncrementViewOf(increment), Ok(()), sent) == Ring(f, d.order, valueStruct, start, records[..i])
    {
      RingStep(f, d.order, valueStruct, start, records, i);
      ghost var before := RingState(IncrementViewOf(increment), Ok(()), sent);
      var handled := HandleRecord(d, f, valueStruct, records[i], increment);
      ghost var after := OneRecord(f, d.order, valueStruct, before, records[i]);
      assert after == Ring(f, d.order, valueStruct, start, records[..i + 1]);
      if handled.IsFailure() {
        assert after == RingState(IncrementViewOf(increment), handled.PropagateFailure(), sent);
        FailedRingStays(f, d.order, valueStruct, start, records, i + 1);
        return handled.PropagateFailure(), sent;
      }
      sent := sent + [handled.value];
      assert after == RingState(IncrementViewOf(increment), Ok(()), sent);
    }
    assert records[..|records|] == records;
    return Ok(()), sent;
  }

  /** Labels decoded with the struct whose member names were registered are the registered ones. */
  lemma RegisteredLabelsAccepted(name: string, spec: MapSpec, f: Formats, order: ByteOrder, raw: ByteString)
    requires Watchable(spec) && spec.mapType == RingBuf
    requires ReadRecord(f, order, LabelStruct(spec).value.members, raw).Ok?
    ensures ReadRecord(f, order, LabelStruct(spec).value.members, raw).value.Keys == LabelNames(Watched(name, spec))
  {
    LabelsMatchRegistration(f, order, LabelStruct(spec).value.members, raw);
  }

  /** How many of the records carry the labels `l`. */
  ghost function Carrying(f: Formats, order: ByteOrder, ms: seq<Member>, records: seq<ByteString>, l: Labels): nat {
    if |records| == 0 then 0
    else
      Carrying(f, order, ms, records[..|records| - 1], l)
      + if ReadRecord(f, order, ms, records[|records| - 1]) == Ok(l) then 1 else 0
  }

  function SeriesValue(series: map<Labels, int>, l: Labels): int {
    if l in series then series[l] else 0
  }

  ghost predicate AllDecode(f: Formats, order: ByteOrder, ms: seq<Member>, records: seq<ByteString>) {
    forall raw :: raw in records ==> ReadRecord(f, order, ms, raw).Ok?
  }

  /** What is sent for records that all decode. */
  ghost function Announced(f: Formats, order: ByteOrder, ms: seq<Member>, records: seq<ByteString>): (kvs: seq<KvPair>)
    requires AllDecode(f, order, ms, records)
    ensures |kvs| == |records|
  {
    seq(|records|, k requires 0 <= k < |records| => KvPair(ReadRecord(f, order, ms, records[k]).value, ""))
  }

  /** The instrument is still the one chosen at the start; a counter's series are the numbers of
      records that carry their labels. */
  ghost predicate CountsCarrying(f: Formats, order: ByteOrder, ms: seq<Member>, v: IncrementView, records: seq<ByteString>, w: WatchedMap) {
    if IsCounterMap(w.mapSpec) then
      && v.CountView? && v.names == LabelNames(w)
      && forall l :: SeriesValue(v.series, l) == Carrying(f, order, ms, records, l)
    else v.NoCount?
  }

  /** What the ring loop keeps: it ends early exactly if some record does not decode. */
  ghost predicate RingCounts(f: Formats, order: ByteOrder, ms: seq<Member>, s: RingState, records: seq<ByteString>, w: WatchedMap) {
    && (s.outcome.Ok? <==> AllDecode(f, order, ms, records))
    && (s.outcome.Ok? ==> s.sent == Announced(f, order, ms, records) && CountsCarrying(f, order, ms, s.view, records, w))
  }

  /** Main result: on a ring buffer admitted by `Parse` in a counter or print section, the loop ends
      early only on a record that does not decode, never for an instrument's sake; it sends every
      record's labels in order, and a counter's series are the numbers of records with those labels. */
  lemma {:induction false} RingBufCountsEveryRecord(name: string, spec: MapSpec, f: Formats, order: ByteOrder, records: seq<ByteString>)
    requires Watchable(spec) && spec.mapType == RingBuf && (IsCounterMap(spec) || IsPrintMap(spec))
    ensures var w, ms := Watched(name, spec), LabelStruct(spec).value.members;
            RingCounts(f, order, ms, Ring(f, order, ms, FirstIncrement(w), records), records, w)
  {
    if |records| > 0 {
      var init, raw := records[..|records| - 1], records[|records| - 1];
      RingBufCountsEveryRecord(name, spec, f, order, init);
      RingCountsStep(name, spec, f, order, Ring(f, order, LabelStruct(spec).value.members, FirstIncrement(Watched(name, spec)), init), records);
    }
  }

  lemma RingCountsStep(name: string, spec: MapSpec, f: Formats, order: ByteOrder, s: RingState, records: seq<ByteString>)
    requires Watchable(spec) && spec.mapType == RingBuf && |records| > 0
    requires RingCounts(f, order, LabelStruct(spec).value.members, s, records[..|records| - 1], Watched(name, spec))
    ensures var w, ms := Watched(name, spec), LabelStruct(spec).value.members;
            RingCounts(f, order, ms, OneRecord(f, order, ms, s, records[|records| - 1]), records, w)
  {
    var init, raw := records[..|records| - 1], records[|records| - 1];
    var w, ms := Watched(name, spec), LabelStruct(spec).value.members;
    assert records == init + [raw];
    assert AllDecode(f, order, ms, records) <==> AllDecode(f, order, ms, init) && ReadRecord(f, order, ms, raw).Ok?;
    if AllDecode(f, order, ms, records) {
      RegisteredLabelsAccepted(name, spec, f, order, raw);
      assert Announced(f, order, ms, records) == Announced(f, order, ms, init) + [KvPair(ReadRecord(f, order, ms, raw).value, "")];
      CarryingStep(f, order, ms, s.view, records, w);
    }
  }

  lemma CarryingStep(f: Formats, order: ByteOrder, ms: seq<Member>, v: IncrementView, records: seq<ByteString>, w: WatchedMap)
    requires |records| > 0 && CountsCarrying(f, order, ms, v, records[..|records| - 1], w)
    requires ReadRecord(f, order, ms, records[|records| - 1]).Ok?
    requires ReadRecord(f, order, ms, records[|records| - 1]).value.Keys == LabelNames(w)
    ensures var (next, alive) := IncrementOn(v, ReadRecord(f, order, ms, records[|records| - 1]).value);
            alive && CountsCarrying(f, order, ms, next, records, w)
  {
  }

  /** Without an instrument the first record ends the loop: with a panic if it decodes. Nothing is ever
      sent. */
  lemma GaugeSectionPanics(name: string, spec: MapSpec, f: Formats, order: ByteOrder, records: seq<ByteString>)
    requires Watchable(spec) && spec.mapType == RingBuf && !IsCounterMap(spec) && !IsPrintMap(spec) && |records| > 0
    ensures var ms := LabelStruct(spec).value.members;
            var s, first := Ring(f, order, ms, FirstIncrement(Watched(name, spec)), records), ReadRecord(f, order, ms, records[0]);
            s.sent == [] && s.outcome == if first.Ok? then Crash else first.PropagateFailure()
  {
    var ms, start := LabelStruct(spec).value.members, FirstIncrement(Watched(name, spec));
    RingStep(f, order, ms, start, records, 0);
    assert records[..0] == [];
    FailedRingStays(f, order, ms, start, records, 1);
  }

  /** Main result: records that all decode are survived exactly when the section says counter or print. */
  lemma RingBufSurvivesIff(name: string, spec: MapSpec, f: Formats, order: ByteOrder, records: seq<ByteString>)
    requires Watchable(spec) && spec.mapType == RingBuf && |records| > 0
    requires AllDecode(f, order, LabelStruct(spec).value.members, records)
    ensures Ring(f, order, LabelStruct(spec).value.members, FirstIncrement(Watched(name, spec)), records).outcome.Ok?
            <==> IsCounterMap(spec) || IsPrintMap(spec)
  {
    if IsCounterMap(spec) || IsPrintMap(spec) {
      RingBufCountsEveryRecord(name, spec, f, order, records);
    } else {
      GaugeSectionPanics(name, spec, f, order, records);
    }
  }

  // ---------------------------------------------------------------- order of a poll

  ghost predicate AllRead(r: Reading, entries: seq<Entry>) {
    forall e :: e in entries ==> ReadEntry(r, e).Ok?
  }

  ghost function Calls(r: Reading, entries: seq<Entry>): (cs: seq<Call>)
    requires AllRead(r, entries)
    ensures |cs| == |entries|
    ensures forall i :: 0 <= i < |entries| ==> cs[i] == ReadEntry(r, entries[i]).value
  {
    seq(|entries|, i requires 0 <= i < |entries| => ReadEntry(r, entries[i]).value)
  }

  /** The instrument after a sequence of `Set` calls, or `None` once the process has died. */
  ghost function SetAll(start: View, cs: seq<Call>): Option<View> {
    if |cs| == 0 then Some(start)
    else OneSet(SetAll(start, cs[..|cs| - 1]), cs[|cs| - 1])
  }

  ghost function ShownAll(r: Reading, entries: seq<Entry>): (kvs: seq<KvPair>)
    requires AllRead(r, entries)
    ensures |kvs| == |entries|
  {
    seq(|entries|, i requires 0 <= i < |entries| => Shown(ReadEntry(r, entries[i]).value))
  }

  lemma ReadingsOfPrefix(r: Reading, entries: seq<Entry>)
    requires |entries| > 0 && AllRead(r, entries)
    ensures var init, last := entries[..|entries| - 1], entries[|entries| - 1];
            && AllRead(r, init) && ReadEntry(r, last).Ok?
            && Calls(r, entries) == Calls(r, init) + [ReadEntry(r, last).value]
            && ShownAll(r, entries) == ShownAll(r, init) + [Shown(ReadEntry(r, last).value)]
  {
    var init, last := entries[..|entries| - 1], entries[|entries| - 1];
    assert entries == init + [last];
  }

  /** A poll of readable entries is the sequence of `Set` calls they stand for, whatever the
      instrument; it sends every entry if it survives them all. */
  lemma {:induction false} PollIsCalls(r: Reading, start: View, entries: seq<Entry>)
    requires AllRead(r, entries)
    ensures var p, v := Poll(r, start, entries), SetAll(start, Calls(r, entries));
            && (v.Some? ==> p == PollState(v.value, Ok(()), ShownAll(r, entries)))
            && (v.None? ==> p.outcome.Crash?)
  {
    if |entries| > 0 {
      var init := entries[..|entries| - 1];
      ReadingsOfPrefix(r, entries);
      PollIsCalls(r, start, init);
      assert Calls(r, entries)[..|init|] == Calls(r, init);
    }
  }

  lemma {:induction false} SetAllCounter(hash: Hasher, names: set<string>, start: CounterState, cs: seq<Call>)
    ensures SetAll(CounterView(hash, names, start), cs)
            == match SetsFrom(hash, names, start, cs) case None => None case Some(s) => Some(CounterView(hash, names, s))
  {
    if |cs| > 0 {
      SetAllCounter(hash, names, start, cs[..|cs| - 1]);
    }
  }

  /** What a gauge that was `start` holds after distinct calls, if the process is still alive. */
  ghost predicate GaugeHolds(names: set<string>, start: map<Labels, int>, cs: seq<Call>, v: Option<View>) {
    && (v.Some? <==> forall c :: c in cs ==> c.labels.Keys == names)
    && (v.Some? ==>
          && v.value.GaugeView? && v.value.gaugeNames == names
          && v.value.gauge.Keys == start.Keys + LabelSets(cs)
          && (forall c :: c in cs ==> v.value.gauge[c.labels] == ToS64(c.total))
          && (forall l :: l in start && (forall c :: c in cs ==> c.labels != l) ==> v.value.gauge[l] == start[l]))
  }

  ghost function OneSet(v: Option<View>, c: Call): Option<View> {
    match v
    case None => None
    case Some(view) =>
      var (next, alive) := SetOn(view, c);
      if alive then Some(next) else None
  }

  lemma GaugeHoldsStep(names: set<string>, start: map<Labels, int>, init: seq<Call>, last: Call, v: Option<View>)
    requires GaugeHolds(names, start, init, v) && DistinctLabels(init + [last])
    ensures GaugeHolds(names, start, init + [last], OneSet(v, last))
  {
    var cs := init + [last];
    assert LabelSets(cs) == LabelSets(init) + {last.labels};
    forall c | c in init
      ensures c.labels != last.labels
    {
      var i :| 0 <= i < |init| && init[i] == c;
      assert cs[i] == c && cs[|init|] == last;
    }
  }

  /** A gauge survives exactly the label sets it was registered for, and shows the last value set. */
  lemma {:induction false} SetAllGauge(names: set<string>, start: map<Labels, int>, cs: seq<Call>)
    requires DistinctLabels(cs)
    ensures GaugeHolds(names, start, cs, SetAll(GaugeView(names, start), cs))
  {
    if |cs| > 0 {
      var init, last := cs[..|cs| - 1], cs[|cs| - 1];
      assert cs == init + [last];
      SetAllGauge(names, start, init);
      GaugeHoldsStep(names, start, init, last, SetAll(GaugeView(names, start), init));
    }
  }

  lemma {:induction false} SetAllNoop(cs: seq<Call>)
    ensures SetAll(NoView, cs) == Some(NoView)
  {
    if |cs| > 0 {
      SetAllNoop(cs[..|cs| - 1]);
    }
  }

  function LabelSets(cs: seq<Call>): set<Labels> {
    set c | c in cs :: c.labels
  }

  predicate DistinctLabels(cs: seq<Call>) {
    forall i, j :: 0 <= i < j < |cs| ==> cs[i].labels != cs[j].labels
  }

  ghost predicate DistinctKeys(entries: seq<Entry>) {
    forall i, j :: 0 <= i < j < |entries| ==> entries[i].key != entries[j].key
  }

  /** Key structs of integers and addresses, the size of the kernel's keys. */
  predicate PlainKey(ms: seq<Member>) {
    && DistinctNames(ms)
    && (forall j :: 0 <= j < |ms| ==> Printable(ms[j].typ) && Tight(ms[j].typ) && !IsCharArray(Underlying(ms[j].typ)))
  }

  ghost predicate CollisionFree(hash: Hasher, r: Reading, entries: seq<Entry>)
    requires AllRead(r, entries)
  {
    InjectiveOn(hash, set e | e in entries :: ReadEntry(r, e).value.labels)
  }

  lemma EntryLabels(r: Reading, e: Entry)
    requires ReadEntry(r, e).Ok?
    ensures Decode(r.order, r.key, e.key).Ok?
    ensures ReadEntry(r, e).value.labels == Stringified(r.formats, Decode(r.order, r.key, e.key).value)
  {
  }

  lemma DistinctKeysDistinctLabels(r: Reading, ms: seq<Member>, a: Entry, b: Entry)
    requires r.key == Struct(ms) && PlainKey(ms) && |a.key| == |b.key| == TotalSize(ms) && a.key != b.key
    requires ReadEntry(r, a).Ok? && ReadEntry(r, b).Ok?
    ensures ReadEntry(r, a).value.labels != ReadEntry(r, b).value.labels
  {
    assert a.key[..TotalSize(ms)] == a.key && b.key[..TotalSize(ms)] == b.key;
    EntryLabels(r, a);
    EntryLabels(r, b);
    if ReadEntry(r, a).value.labels == ReadEntry(r, b).value.labels {
      LabelsDetermineKeyBytes(r.formats, r.order, ms, a.key, b.key);
    }
  }

  /** A snapshot of a kernel map with such keys: every key once, every entry readable. */
  ghost predicate Snapshot(r: Reading, ms: seq<Member>, entries: seq<Entry>) {
    && r.key == Struct(ms) && PlainKey(ms) && DistinctKeys(entries) && AllRead(r, entries)
    && forall e :: e in entries ==> |e.key| == TotalSize(ms)
  }

  lemma DistinctKeysDistinctCalls(r: Reading, ms: seq<Member>, entries: seq<Entry>)
    requires Snapshot(r, ms, entries)
    ensures DistinctLabels(Calls(r, entries))
  {
    var cs := Calls(r, entries);
    forall i, j | 0 <= i < j < |cs|
      ensures cs[i].labels != cs[j].labels
    {
      assert entries[i] in entries && entries[j] in entries;
      DistinctKeysDistinctLabels(r, ms, entries[i], entries[j]);
    }
  }

  lemma DistinctKeysDistinctHashes(r: Reading, ms: seq<Member>, hash: Hasher, entries: seq<Entry>)
    requires Snapshot(r, ms, entries) && CollisionFree(hash, r, entries)
    ensures DistinctHashes(hash, Calls(r, entries))
  {
    var cs := Calls(r, entries);
    DistinctKeysDistinctCalls(r, ms, entries);
    forall i, j | 0 <= i < j < |cs|
      ensures hash(cs[i].labels) != hash(cs[j].labels)
    {
      assert entries[i] in entries && entries[j] in entries;
    }
  }

  /** Equal readings for equal entries: whatever is read from `xs` is read from `ys`. */
  lemma ReadingsFollow<T, U>(xs: seq<T>, us: seq<U>, ys: seq<T>, vs: seq<U>, u: U)
    requires |xs| == |us| && |ys| == |vs| && u in us
    requires forall i, j :: 0 <= i < |xs| && 0 <= j < |ys| && xs[i] == ys[j] ==> us[i] == vs[j]
    requires forall x :: x in xs ==> x in ys
    ensures u in vs
  {
    var i :| 0 <= i < |us| && us[i] == u;
    assert xs[i] in ys;
    var j :| 0 <= j < |ys| && ys[j] == xs[i];
    assert vs[j] == u;
  }

  lemma SameEntriesSameCalls(r: Reading, entries: seq<Entry>, reordered: seq<Entry>)
    requires AllRead(r, entries) && AllRead(r, reordered)
    requires forall e :: e in entries <==> e in reordered
    ensures forall c :: c in Calls(r, entries) <==> c in Calls(r, reordered)
  {
    var cs, ds := Calls(r, entries), Calls(r, reordered);
    forall c
      ensures c in cs <==> c in ds
    {
      if c in cs {
        ReadingsFollow(entries, cs, reordered, ds, c);
      }
      if c in ds {
        ReadingsFollow(reordered, ds, entries, cs, c);
      }
    }
  }

  lemma CollisionFreeFollows(hash: Hasher, r: Reading, entries: seq<Entry>, reordered: seq<Entry>)
    requires AllRead(r, entries) && AllRead(r, reordered) && CollisionFree(hash, r, entries)
    requires forall e :: e in entries <==> e in reordered
    ensures CollisionFree(hash, r, reordered)
  {
    assert (set e | e in entries :: ReadEntry(r, e).value.labels) == set e | e in reordered :: ReadEntry(r, e).value.labels;
  }

  /** The hash tells the labels of the snapshot apart, if the instrument uses it. */
  ghost predicate HashSuffices(v: View, r: Reading, entries: seq<Entry>)
    requires AllRead(r, entries)
  {
    v.CounterView? ==> CollisionFree(v.hash, r, entries)
  }

  lemma GaugeOrderIrrelevant(names: set<string>, start: map<Labels, int>, cs: seq<Call>, ds: seq<Call>)
    requires DistinctLabels(cs) && DistinctLabels(ds) && forall c :: c in cs <==> c in ds
    ensures SetAll(GaugeView(names, start), cs) == SetAll(GaugeView(names, start), ds)
  {
    SetAllGauge(names, start, cs);
    SetAllGauge(names, start, ds);
    GaugesAgree(names, start, cs, ds, SetAll(GaugeView(names, start), cs), SetAll(GaugeView(names, start), ds));
  }

  lemma GaugesAgree(names: set<string>, start: map<Labels, int>, cs: seq<Call>, ds: seq<Call>, v: Option<View>, w: Option<View>)
    requires GaugeHolds(names, start, cs, v) && GaugeHolds(names, start, ds, w) && forall c :: c in cs <==> c in ds
    ensures v == w
  {
    assert LabelSets(cs) == LabelSets(ds);
    if v.Some? {
      forall l | l in v.value.gauge
        ensures l in w.value.gauge && v.value.gauge[l] == w.value.gauge[l]
      {
        GaugesAgreeAt(names, start, cs, ds, v, w, l);
      }
      assert v.value.gauge == w.value.gauge;
    }
  }

  lemma GaugesAgreeAt(names: set<string>, start: map<Labels, int>, cs: seq<Call>, ds: seq<Call>, v: Option<View>, w: Option<View>,
                      l: Labels)
    requires GaugeHolds(names, start, cs, v) && GaugeHolds(names, start, ds, w) && forall c :: c in cs <==> c in ds
    requires v.Some? && l in v.value.gauge
    ensures w.Some? && l in w.value.gauge && v.value.gauge[l] == w.value.gauge[l]
  {
    assert LabelSets(cs) == LabelSets(ds);
    if c :| c in cs && c.labels == l {
      assert c in ds;
    }
  }

  /** Main result: polling the same snapshot in any iteration order ends the same way and leaves the
      same instrument, be it a counter, a gauge or none. */
  lemma PollOrderIrrelevant(r: Reading, ms: seq<Member>, start: View, entries: seq<Entry>, reordered: seq<Entry>)
    requires Snapshot(r, ms, entries) && DistinctKeys(reordered) && forall e :: e in entries <==> e in reordered
    requires HashSuffices(start, r, entries)
    ensures var p, q := Poll(r, start, entries), Poll(r, start, reordered);
            p.outcome == q.outcome && (p.outcome.Ok? ==> p.view == q.view)
  {
    assert forall e :: e in reordered ==> e in entries;
    SameEntriesSameCalls(r, entries, reordered);
    PollIsCalls(r, start, entries);
    PollIsCalls(r, start, reordered);
    CallOrderIrrelevant(r, ms, start, entries, reordered);
  }

  lemma CallOrderIrrelevant(r: Reading, ms: seq<Member>, start: View, entries: seq<Entry>, reordered: seq<Entry>)
    requires Snapshot(r, ms, entries) && Snapshot(r, ms, reordered) && HashSuffices(start, r, entries)
    requires forall e :: e in entries <==> e in reordered
    ensures SetAll(start, Calls(r, entries)) == SetAll(start, Calls(r, reordered))
  {
    var cs, ds := Calls(r, entries), Calls(r, reordered);
    SameEntriesSameCalls(r, entries, reordered);
    match start
    case CounterView(hash, names, s) =>
      CollisionFreeFollows(hash, r, entries, reordered);
      DistinctKeysDistinctHashes(r, ms, hash, entries);
      DistinctKeysDistinctHashes(r, ms, hash, reordered);
      OrderOfCallsIrrelevant(hash, names, s, cs, ds);
      SetAllCounter(hash, names, s, cs);
      SetAllCounter(hash, names, s, ds);
    case GaugeView(names, g) =>
      DistinctKeysDistinctCalls(r, ms, entries);
      DistinctKeysDistinctCalls(r, ms, reordered);
      GaugeOrderIrrelevant(names, g, cs, ds);
    case NoView =>
      SetAllNoop(cs);
      SetAllNoop(ds);
  }

  // ---------------------------------------------------------------- what a poll leaves behind

  /** Main result: an instrument that `WatchMaps` makes for an admitted hash map is registered for the very
      struct by which the poll decodes the map's keys. */
  lemma HashMapsAreRegistered(name: string, spec: MapSpec, hash: Hasher)
    requires Watchable(spec) && spec.mapType == Hash
    ensures var w := Watched(name, spec);
            && w.mapSpec.btf.Some? && w.mapSpec.btf.value.key.Struct?
            && RegisteredFor(CounterView(hash, LabelNames(w), NO_SERIES), w.mapSpec.btf.value.key.members)
            && RegisteredFor(GaugeView(LabelNames(w), map[]), w.mapSpec.btf.value.key.members)
  {
    WatchedExactly(name, spec);
  }

  /** The instrument was registered for the labels of the key struct. */
  predicate RegisteredFor(v: View, ms: seq<Member>) {
    var names := set name | name in MemberNames(ms);
    && (v.CounterView? ==> v.names == names)
    && (v.GaugeView? ==> v.gaugeNames == names)
  }

  /** A counter has followed this label set so far, and the kernel's value has not decreased since. */
  ghost predicate Ready(v: View, c: Call) {
    v.CounterView? ==>
      && Tracks(v.state, v.hash, c.labels, Exported(v.state, c.labels))
      && Exported(v.state, c.labels) <= c.total < Exported(v.state, c.labels) + TWO_63
  }

  /** The series of the call's label set equals its value: exactly in a counter, as a signed word in a
      gauge. */
  ghost predicate Reflects(v: View, c: Call) {
    match v
    case CounterView(hash, _, s) => Tracks(s, hash, c.labels, c.total)
    case GaugeView(_, g) => c.labels in g && g[c.labels] == ToS64(c.total)
    case NoView => true
  }

  function SeriesOf(v: View): map<Labels, int> {
    match v
    case CounterView(_, _, s) => s.series
    case GaugeView(_, g) => g
    case NoView => map[]
  }

  ghost predicate KeepsSeries(v: View, start: View, l: Labels) {
    && (l in SeriesOf(v) <==> l in SeriesOf(start))
    && (l in SeriesOf(v) ==> SeriesOf(v)[l] == SeriesOf(start)[l])
  }

  /** The instrument after distinct calls it is ready for. */
  ghost predicate AllReflected(start: View, v: View, cs: seq<Call>) {
    && (forall c :: c in cs ==> Reflects(v, c))
    && (forall l :: (forall c :: c in cs ==> c.labels != l) ==> KeepsSeries(v, start, l))
  }

  lemma ReadyCounterReflects(hash: Hasher, names: set<string>, s: CounterState, cs: seq<Call>)
    requires DistinctHashes(hash, cs) && forall c :: c in cs ==> c.labels.Keys == names && Ready(CounterView(hash, names, s), c)
    ensures SetsFrom(hash, names, s, cs).Some?
    ensures AllReflected(CounterView(hash, names, s), CounterView(hash, names, SetsFrom(hash, names, s, cs).value), cs)
  {
    EachCallActsAlone(hash, names, s, cs);
    forall c | c in cs
      ensures SetNext(hash, names, s, ToS64(c.total), c.labels).alive
      ensures Tracks(SetNext(hash, names, s, ToS64(c.total), c.labels).state, hash, c.labels, c.total)
    {
      assert Ready(CounterView(hash, names, s), c);
      SetFollowsTotal(hash, names, s, c.labels, Exported(s, c.labels), c.total);
    }
    var t := SetsFrom(hash, names, s, cs).value;
    forall c | c in cs
      ensures Tracks(t, hash, c.labels, c.total)
    {
      SlotTracks(t, SetNext(hash, names, s, ToS64(c.total), c.labels).state, hash, c.labels, c.total);
    }
    forall l | forall c :: c in cs ==> c.labels != l
      ensures KeepsSeries(CounterView(hash, names, t), CounterView(hash, names, s), l)
    {
      UntouchedSeries(hash, names, s, cs, l);
    }
  }

  lemma SlotTracks(s: CounterState, t: CounterState, hash: Hasher, l: Labels, total: int)
    requires Slot(s, hash, l) == Slot(t, hash, l) && Tracks(t, hash, l, total)
    ensures Tracks(s, hash, l, total)
  {
  }

  lemma RegisteredGaugeReflects(names: set<string>, g: map<Labels, int>, cs: seq<Call>)
    requires DistinctLabels(cs) && forall c :: c in cs ==> c.labels.Keys == names
    ensures SetAll(GaugeView(names, g), cs).Some?
    ensures AllReflected(GaugeView(names, g), SetAll(GaugeView(names, g), cs).value, cs)
  {
    SetAllGauge(names, g, cs);
    var v := SetAll(GaugeView(names, g), cs).value;
    forall l | forall c :: c in cs ==> c.labels != l
      ensures KeepsSeries(v, GaugeView(names, g), l)
    {
      assert l !in LabelSets(cs);
    }
  }

  lemma CallsHaveKeyLabels(r: Reading, ms: seq<Member>, entries: seq<Entry>, c: Call)
    requires r.key == Struct(ms) && AllRead(r, entries) && c in Calls(r, entries)
    ensures c.labels.Keys == set name | name in MemberNames(ms)
  {
    var i :| 0 <= i < |entries| && Calls(r, entries)[i] == c;
    EntryLabels(r, entries[i]);
    LabelsMatchRegistration(r.formats, r.order, ms, entries[i].key);
  }

  /** Main result: a poll of a snapshot succeeds, sends every entry in order, leaves every snapshot
      key's series equal to its kernel value, and touches no other series. */
  lemma PollSetsEverySeries(r: Reading, ms: seq<Member>, start: View, entries: seq<Entry>)
    requires Snapshot(r, ms, entries) && RegisteredFor(start, ms) && HashSuffices(start, r, entries)
    requires forall c :: c in Calls(r, entries) ==> Ready(start, c)
    ensures var p := Poll(r, start, entries);
            p.outcome.Ok? && p.sent == ShownAll(r, entries) && AllReflected(start, p.view, Calls(r, entries))
  {
    var cs := Calls(r, entries);
    forall c | c in cs
      ensures c.labels.Keys == set name | name in MemberNames(ms)
    {
      CallsHaveKeyLabels(r, ms, entries, c);
    }
    PollIsCalls(r, start, entries);
    match start
    case CounterView(hash, names, s) =>
      DistinctKeysDistinctHashes(r, ms, hash, entries);
      ReadyCounterReflects(hash, names, s, cs);
      SetAllCounter(hash, names, s, cs);
    case GaugeView(names, g) =>
      DistinctKeysDistinctCalls(r, ms, entries);
      RegisteredGaugeReflects(names, g, cs);
    case NoView =>
      SetAllNoop(cs);
  }
}
