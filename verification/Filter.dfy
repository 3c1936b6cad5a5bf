/** Command-line filters on the entries shown (pkg/tui/filter.go). */
module Filters {
  import opened Outcomes
  import opened Loading

  /** Go's regular expressions: which patterns compile, and what they match. */
  datatype Regexes = Regexes(valid: string -> bool, matches: (string, string) -> bool)

  datatype Filter = Filter(mapName: string, keyField: string, regex: string)

  datatype MapEntry = MapEntry(name: string, entry: KvPair)

  /** What the `i`-th triple of arguments amounts to; `regexp.MustCompile` panics. */
  function Triple(rx: Regexes, args: seq<string>, watchedMaps: map<string, WatchedMap>, i: nat): Outcome<Filter>
    requires 3 * i + 3 <= |args|
  {
    var mapName, labelName, pattern := args[3 * i], args[3 * i + 1], args[3 * i + 2];
    if mapName !in watchedMaps then Err(UnknownMap)
    else if labelName !in watchedMaps[mapName].labels then Err(UnknownLabel)
    else if !rx.valid(pattern) then Crash
    else Ok(Filter(mapName, labelName, pattern))
  }

  /** Main result: a triple is accepted exactly if it names a watched map, one of that map's labels and a
      valid pattern, checked in that order. */
  lemma TripleExactly(rx: Regexes, args: seq<string>, watchedMaps: map<string, WatchedMap>, i: nat)
    requires 3 * i + 3 <= |args|
    ensures var r, name, l, pattern := Triple(rx, args, watchedMaps, i), args[3 * i], args[3 * i + 1], args[3 * i + 2];
            && (r.Ok? <==> name in watchedMaps && l in watchedMaps[name].labels && rx.valid(pattern))
            && (r == Err(UnknownMap) <==> name !in watchedMaps)
            && (r == Err(UnknownLabel) <==> name in watchedMaps && l !in watchedMaps[name].labels)
            && (r == Crash <==> name in watchedMaps && l in watchedMaps[name].labels && !rx.valid(pattern))
  {
  }

  /** `f` is the filter of the last triple among the first `n` that names `mapName`. */
  ghost predicate IsLastFor(args: seq<string>, n: nat, mapName: string, f: Filter)
    requires 3 * n <= |args|
  {
    exists i :: 0 <= i < n && args[3 * i] == mapName && NoLater(args, n, i)
                && f == Filter(mapName, args[3 * i + 1], args[3 * i + 2])
  }

  ghost predicate NoLater(args: seq<string>, n: nat, i: nat)
    requires 3 * n <= |args| && i < n
  {
    forall j :: i < j < n ==> args[3 * j] != args[3 * i]
  }

  ghost predicate Named(args: seq<string>, n: nat, mapName: string)
    requires 3 * n <= |args|
  {
    exists i :: 0 <= i < n && args[3 * i] == mapName
  }

  /** Each map named in the first `n` triples has the filter of its last one. */
  ghost predicate LastTriples(args: seq<string>, n: nat, m: map<string, Filter>)
    requires 3 * n <= |args|
  {
    && (forall name :: name in m <==> Named(args, n, name))
    && (forall name :: name in m ==> IsLastFor(args, n, name, m[name]))
  }

  /** Main result: building succeeds exactly when the arguments come in threes and every triple
      names a watched map, one of its labels and a valid pattern; each map then has the filter of its
      last triple. Otherwise the first bad triple decides. */
  method BuildFilter(rx: Regexes, args: seq<string>, watchedMaps: map<string, WatchedMap>)
    returns (result: Outcome<Option<map<string, Filter>>>)
    ensures |args| == 0 ==> result == Ok(None)
    ensures |args| % 3 != 0 ==> result == Err(FilterSyntax)
    ensures |args| % 3 == 0 ==> (result.Ok? <==> forall i :: 0 <= i < |args| / 3 ==> Triple(rx, args, watchedMaps, i).Ok?)
    ensures |args| % 3 == 0 && !result.Ok? ==>
              exists i :: 0 <= i < |args| / 3 && !Triple(rx, args, watchedMaps, i).Ok?
                          && (forall j :: 0 <= j < i ==> Triple(rx, args, watchedMaps, j).Ok?)
                          && result == Triple(rx, args, watchedMaps, i).PropagateFailure()
    ensures result.Ok? && |args| > 0 ==> result.value.Some? && LastTriples(args, |args| / 3, result.value.value)
    ensures result.Ok? ==> BuiltFrom(rx, args, watchedMaps, result.value)
  {
    if |args| == 0 {
      return Ok(None);
    }
    if |args| % 3 != 0 {
      return Err(FilterSyntax);
    }
    var filterMap: map<string, Filter> := map[];
    var numFilters := |args| / 3;
    for i := 0 to numFilters
      invariant forall j :: 0 <= j < i ==> Triple(rx, args, watchedMaps, j).Ok?
      invariant LastTriples(args, i, filterMap)
    {
      var thisFilter := args[i * 3..i * 3 + 3];
      var mapName := thisFilter[0];
      var labelName := thisFilter[1];
      if mapName !in watchedMaps {
        assert !Triple(rx, args, watchedMaps, i).Ok?;
        return Err(UnknownMap);
      }
      var foundKeyName := ContainsLabel(watchedMaps[mapName].labels, labelName);
      if !foundKeyName {
        assert !Triple(rx, args, watchedMaps, i).Ok?;
        return Err(UnknownLabel);
      }
      if !rx.valid(thisFilter[2]) {
        assert !Triple(rx, args, watchedMaps, i).Ok?;
        return Crash;
      }
      OneMoreTriple(args, i, filterMap);
      filterMap := filterMap[mapName := Filter(mapName, labelName, thisFilter[2])];
    }
    return Ok(Some(filterMap));
  }

  /** A filter the given command line leads to. */
  ghost predicate BuiltFrom(rx: Regexes, args: seq<string>, watchedMaps: map<string, WatchedMap>, filter: Option<map<string, Filter>>) {
    if |args| == 0 then filter.None?
    else
      && |args| % 3 == 0 && filter.Some? && LastTriples(args, |args| / 3, filter.value)
      && forall j :: 0 <= j < |args| / 3 ==> Triple(rx, args, watchedMaps, j).Ok?
  }

  /** The label search in `BuildFilter`: it does not stop at the first hit. */
  method ContainsLabel(labels: seq<string>, labelName: string) returns (foundKeyName: bool)
    ensures foundKeyName <==> labelName in labels
  {
    foundKeyName := false;
    for i := 0 to |labels|
      invariant foundKeyName <==> labelName in labels[..i]
    {
      if labels[i] == labelName {
        foundKeyName := true;
      }
    }
    assert labels[..|labels|] == labels;
  }

  lemma OneMoreTriple(args: seq<string>, n: nat, m: map<string, Filter>)
    requires 3 * n + 3 <= |args| && LastTriples(args, n, m)
    ensures LastTriples(args, n + 1, m[args[3 * n] := Filter(args[3 * n], args[3 * n + 1], args[3 * n + 2])])
  {
    var r := m[args[3 * n] := Filter(args[3 * n], args[3 * n + 1], args[3 * n + 2])];
    forall name
      ensures name in r <==> Named(args, n + 1, name)
    {
      if Named(args, n, name) {
        var i :| 0 <= i < n && args[3 * i] == name;
        assert args[3 * i] == name && i < n + 1;
      }
      if name == args[3 * n] {
        assert Named(args, n + 1, name);
      }
    }
    forall name | name in r
      ensures IsLastFor(args, n + 1, name, r[name])
    {
      if name == args[3 * n] {
        assert NoLater(args, n + 1, n);
      } else {
        var i :| 0 <= i < n && args[3 * i] == name && NoLater(args, n, i)
                 && m[name] == Filter(name, args[3 * i + 1], args[3 * i + 2]);
        assert NoLater(args, n + 1, i);
      }
    }
  }

  /** Whether an entry is let through. */
  predicate Passes(rx: Regexes, filter: Option<map<string, Filter>>, e: MapEntry) {
    || filter.None?
    || e.name !in filter.value
    || var f := filter.value[e.name];
       f.keyField in e.entry.key && rx.matches(f.regex, e.entry.key[f.keyField])
  }

  method FilterMatch(rx: Regexes, filter: Option<map<string, Filter>>, e: MapEntry) returns (ok: bool)
    ensures ok == Passes(rx, filter, e)
  {
    if filter.None? {
      return true;
    }
    if e.name !in filter.value {
      return true;
    }
    var f := filter.value[e.name];
    var todo := e.entry.key.Keys;
    while todo != {}
      invariant todo <= e.entry.key.Keys
      invariant f.keyField in e.entry.key.Keys - todo ==> !rx.matches(f.regex, e.entry.key[f.keyField])
    {
      var k :| k in todo;
      todo := todo - {k};
      if k == f.keyField {
        if rx.matches(f.regex, e.entry.key[k]) {
          return true;
        }
      }
    }
    return false;
  }

  lemma NamedLabelIsPresent(rx: Regexes, args: seq<string>, watchedMaps: map<string, WatchedMap>, e: MapEntry, i: nat)
    requires 3 * i + 3 <= |args| && Triple(rx, args, watchedMaps, i).Ok? && args[3 * i] == e.name
    requires e.name in watchedMaps && e.entry.key.Keys == set name | name in watchedMaps[e.name].labels
    ensures args[3 * i + 1] in e.entry.key
  {
  }

  /** Main result: for an entry carrying its map's registered labels, a filter built from the command
      line lets it through exactly when its map has no triple, or the pattern of its last triple `i`
      matches the value of the label that triple names. */
  lemma FilterLooksAtItsLabel(rx: Regexes, args: seq<string>, watchedMaps: map<string, WatchedMap>,
                              filter: map<string, Filter>, e: MapEntry, i: nat)
    requires |args| % 3 == 0 && LastTriples(args, |args| / 3, filter)
    requires forall j :: 0 <= j < |args| / 3 ==> Triple(rx, args, watchedMaps, j).Ok?
    requires e.name in watchedMaps && e.entry.key.Keys == set name | name in watchedMaps[e.name].labels
    ensures !Named(args, |args| / 3, e.name) ==> Passes(rx, Some(filter), e)
    ensures i < |args| / 3 && args[3 * i] == e.name && NoLater(args, |args| / 3, i) ==>
              && args[3 * i + 1] in e.entry.key
              && (Passes(rx, Some(filter), e) <==> rx.matches(args[3 * i + 2], e.entry.key[args[3 * i + 1]]))
  {
    var n := |args| / 3;
    if i < n && args[3 * i] == e.name && NoLater(args, n, i) {
      NamedLabelIsPresent(rx, args, watchedMaps, e, i);
      assert Named(args, n, e.name);
      var k :| 0 <= k < n && args[3 * k] == e.name && NoLater(args, n, k)
               && filter[e.name] == Filter(e.name, args[3 * k + 1], args[3 * k + 2]);
      assert k == i;
    }
  }

  /** Main result: what any command line that is accepted does to any entry with its map's registered labels.
      Without arguments the entry passes; with arguments it passes if no triple names its map, and otherwise
      exactly if the pattern of the last such triple `i` matches the value of the label it names. */
  lemma CommandLineDecides(rx: Regexes, args: seq<string>, watchedMaps: map<string, WatchedMap>,
                           filter: Option<map<string, Filter>>, e: MapEntry, i: nat)
    requires BuiltFrom(rx, args, watchedMaps, filter)
    requires e.name in watchedMaps && e.entry.key.Keys == set name | name in watchedMaps[e.name].labels
    ensures |args| == 0 ==> Passes(rx, filter, e)
    ensures |args| > 0 && !Named(args, |args| / 3, e.name) ==> Passes(rx, filter, e)
    ensures i < |args| / 3 && args[3 * i] == e.name && NoLater(args, |args| / 3, i) ==>
              && args[3 * i + 1] in e.entry.key
              && (Passes(rx, filter, e) <==> rx.matches(args[3 * i + 2], e.entry.key[args[3 * i + 1]]))
  {
    if |args| > 0 {
      FilterLooksAtItsLabel(rx, args, watchedMaps, filter.value, e, i);
    }
  }

  /** Without a filter every entry of every map passes, whatever its labels. */
  lemma NoFilterPassesAll(rx: Regexes, e: MapEntry)
    ensures Passes(rx, None, e)
  {
  }

  /** An entry without the label its map's filter names is dropped. */
  lemma MissingLabelIsDropped(rx: Regexes, filter: map<string, Filter>, e: MapEntry)
    requires e.name in filter && filter[e.name].keyField !in e.entry.key
    ensures !Passes(rx, Some(filter), e)
  {
  }
}
