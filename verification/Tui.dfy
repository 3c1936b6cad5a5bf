/** The tables of the terminal interface (pkg/tui/tui.go): the consumer keeps a list of rows per map
    and redraws a grid of cells from it. */
module Tables {
  import opened Labelling
  import opened Stats
  import opened Loading
  import opened Filters

  /** A `KvPair` as stored by the interface, with the hash of its key. */
  datatype Row = Row(key: Labels, value: string, hash: nat)

  /** A table widget: what each set cell shows. */
  type Grid = map<(nat, nat), string>

  datatype MapValue = MapValue(entries: seq<Row>, table: Grid, index: nat, mapType: MapType, keys: seq<string>)

  type MapOfMaps = map<string, MapValue>

  // ---------------------------------------------------------------- sorted columns

  predicate StringLeq(a: string, b: string) {
    |a| == 0 || (|b| > 0 && (a[0] < b[0] || (a[0] == b[0] && StringLeq(a[1..], b[1..]))))
  }

  lemma {:induction false} StringLeqTotal(a: string, b: string)
    ensures StringLeq(a, b) || StringLeq(b, a)
  {
    if |a| > 0 && |b| > 0 {
      StringLeqTotal(a[1..], b[1..]);
    }
  }

  /** Main result: the order of columns is that of the first differing character, or of the length if there
      is none. */
  lemma {:induction false} StringLeqMeansFirstDifference(a: string, b: string)
    ensures StringLeq(a, b) <==>
            || (|a| <= |b| && b[..|a|] == a)
            || exists k :: DiffersFirstAt(a, b, k) && a[k] < b[k]
  {
    if |a| > 0 && |b| > 0 && a[0] == b[0] {
      var x, y := a[1..], b[1..];
      StringLeqMeansFirstDifference(x, y);
      assert a == [a[0]] + x && b == [b[0]] + y;
      if |a| <= |b| {
        assert b[..|a|] == [b[0]] + y[..|x|];
      }
      if k :| DiffersFirstAt(x, y, k) && x[k] < y[k] {
        FirstDifferenceMoves(a, b, k);
        assert a[k + 1] == x[k] && b[k + 1] == y[k];
      }
      if k :| DiffersFirstAt(a, b, k) && a[k] < b[k] {
        FirstDifferenceMoves(a, b, k - 1);
        assert a[k] == x[k - 1] && b[k] == y[k - 1];
      }
    } else if |a| > 0 && |b| > 0 {
      assert DiffersFirstAt(a, b, 0);
    }
  }

  ghost predicate DiffersFirstAt(a: string, b: string, k: int) {
    0 <= k < |a| && k < |b| && a[k] != b[k] && forall i :: 0 <= i < k ==> a[i] == b[i]
  }

  lemma FirstDifferenceMoves(a: string, b: string, k: nat)
    requires |a| > 0 && |b| > 0 && a[0] == b[0]
    ensures DiffersFirstAt(a, b, k + 1) <==> DiffersFirstAt(a[1..], b[1..], k)
  {
    var x, y := a[1..], b[1..];
    if DiffersFirstAt(a, b, k + 1) {
      forall i | 0 <= i < k
        ensures x[i] == y[i]
      {
        assert a[i + 1] == b[i + 1];
      }
    }
    if DiffersFirstAt(x, y, k) {
      forall i | 0 <= i < k + 1
        ensures a[i] == b[i]
      {
        if i > 0 {
          assert x[i - 1] == y[i - 1];
        }
      }
    }
  }

  predicate Sorted(s: seq<string>) {
    forall i :: 0 < i < |s| ==> StringLeq(s[i - 1], s[i])
  }

  function Insert(k: string, s: seq<string>): (r: seq<string>)
    requires Sorted(s)
    ensures Sorted(r) && multiset(r) == multiset(s) + multiset{k} && |r| == |s| + 1
    ensures r[0] == k || (|s| > 0 && r[0] == s[0])
  {
    if |s| == 0 || StringLeq(k, s[0]) then [k] + s
    else
      StringLeqTotal(k, s[0]);
      assert s == [s[0]] + s[1..];
      [s[0]] + Insert(k, s[1..])
  }

  /** `sort.Strings`. */
  function SortStrings(s: seq<string>): (r: seq<string>)
    ensures Sorted(r) && multiset(r) == multiset(s) && |r| == |s|
  {
    if |s| == 0 then []
    else
      assert s == s[..|s| - 1] + [s[|s| - 1]];
      Insert(s[|s| - 1], SortStrings(s[..|s| - 1]))
  }

  // ---------------------------------------------------------------- the rows of a hash map

  /** The first row with the given hash, or the number of rows. */
  function FindHash(entries: seq<Row>, h: nat): (i: nat)
    ensures i <= |entries|
    ensures i < |entries| ==> entries[i].hash == h
    ensures forall j :: 0 <= j < i ==> entries[j].hash != h
  {
    if |entries| == 0 || entries[0].hash == h then 0 else 1 + FindHash(entries[1..], h)
  }

  /** The row list after an entry: its key's row is overwritten in place, or a new one appended. */
  function Upserted(hash: Hasher, entries: seq<Row>, e: KvPair): seq<Row> {
    var i := FindHash(entries, hash(e.key));
    if i < |entries| then entries[i := entries[i].(value := e.value)] else entries + [Row(e.key, e.value, hash(e.key))]
  }

  function HashRows(hash: Hasher, log: seq<KvPair>): seq<Row> {
    if |log| == 0 then [] else Upserted(hash, HashRows(hash, log[..|log| - 1]), log[|log| - 1])
  }

  /** Main result: an entry changes the value of the first row with its key's hash and nothing else of any
      row, or becomes a new last row. */
  lemma UpsertedExactly(hash: Hasher, entries: seq<Row>, e: KvPair, i: nat)
    requires i <= |entries| && forall j :: 0 <= j < i ==> entries[j].hash != hash(e.key)
    requires i < |entries| ==> entries[i].hash == hash(e.key)
    ensures var r := Upserted(hash, entries, e);
            if i < |entries| then
              && |r| == |entries| && r[i].key == entries[i].key && r[i].hash == entries[i].hash && r[i].value == e.value
              && forall j :: 0 <= j < |entries| && j != i ==> r[j] == entries[j]
            else
              && |r| == |entries| + 1 && r[..|entries|] == entries
              && r[i].key == e.key && r[i].value == e.value && r[i].hash == hash(e.key)
  {
    assert FindHash(entries, hash(e.key)) == i;
  }

  /** Ring-buffer rows are a log; their hash is never set. */
  function RingRows(log: seq<KvPair>): (rows: seq<Row>)
    ensures |rows| == |log|
  {
    seq(|log|, i requires 0 <= i < |log| => Row(log[i].key, log[i].value, 0))
  }

  // ---------------------------------------------------------------- drawing

  const VALUE_HEADER: string := "value"

  function Lookup(key: Labels, k: string): string {
    if k in key then key[k] else ""
  }

  /** What cell (row, column) shows: a header, then one row per entry; hash maps end with a value. */
  function Text(keys: seq<string>, entries: seq<Row>, p: (nat, nat)): string
    requires p.0 <= |entries|
  {
    if p.0 == 0 then (if p.1 < |keys| then keys[p.1] else VALUE_HEADER)
    else if p.1 < |keys| then Lookup(entries[p.0 - 1].key, keys[p.1])
    else entries[p.0 - 1].value
  }

  /** The first `rows` rows of `columns` cells, and the first `last` cells of the next row. */
  function Area(rows: nat, columns: nat, last: nat): (area: set<(nat, nat)>)
    ensures forall p :: p in area <==> (p.0 < rows && p.1 < columns) || (p.0 == rows && p.1 < last)
    decreases rows, last
  {
    if last > 0 then Area(rows, columns, last - 1) + {(rows, last - 1)}
    else if rows > 0 then Area(rows - 1, columns, columns)
    else {}
  }

  function Cells(keys: seq<string>, entries: seq<Row>, area: set<(nat, nat)>): Grid
    requires forall p :: p in area ==> p.0 <= |entries|
  {
    map p | p in area :: Text(keys, entries, p)
  }

  /** The cells `table` shows after a complete redraw. */
  function Drawn(table: Grid, keys: seq<string>, entries: seq<Row>, columns: nat): Grid {
    table + Cells(keys, entries, Area(|entries| + 1, columns, 0))
  }

  function Columns(v: MapValue): nat {
    if v.mapType == Hash then |v.keys| + 1 else |v.keys|
  }

  /** A table shows exactly its rows, or nothing before the first one. */
  predicate Shows(v: MapValue) {
    v.table == if |v.entries| == 0 then map[] else Cells(v.keys, v.entries, Area(|v.entries| + 1, Columns(v), 0))
  }

  // ---------------------------------------------------------------- the interface as a function

  function Registered(m: MapOfMaps, name: string, keys: seq<string>, mapType: MapType): MapOfMaps {
    m[name := MapValue([], map[], |m|, mapType, SortStrings(keys))]
  }

  /** One entry taken off the channel by `watch`. */
  function Handled(hash: Hasher, m: MapOfMaps, e: MapEntry): MapOfMaps {
    if e.name !in m then m
    else
      var v := m[e.name];
      if v.mapType == Hash then
        var i := FindHash(v.entries, hash(e.entry.key));
        if i < |v.entries| && v.entries[i].value == e.entry.value then m
        else
          var entries := Upserted(hash, v.entries, e.entry);
          m[e.name := v.(entries := entries, table := Drawn(v.table, v.keys, entries, |v.keys| + 1))]
      else if v.mapType == RingBuf then
        var entries := v.entries + [Row(e.entry.key, e.entry.value, 0)];
        m[e.name := v.(entries := entries, table := Drawn(v.table, v.keys, entries, |v.keys|))]
      else m
  }

  /** What a table shows, cell by cell: the column names, and for a hash map "value"; then each entry's
      label under every column, blank where it has none, and for a hash map its value. Nothing else is
      set. */
  ghost predicate ShowsCells(keys: seq<string>, entries: seq<Row>, table: Grid, isHash: bool) {
    && (forall j :: 0 <= j < |keys| ==> IsCell(table, 0, j, keys[j]))
    && (isHash ==> IsCell(table, 0, |keys|, "value"))
    && (forall k, j :: 0 <= k < |entries| && 0 <= j < |keys| ==>
          IsCell(table, k + 1, j, if keys[j] in entries[k].key then entries[k].key[keys[j]] else ""))
    && (isHash ==> forall k :: 0 <= k < |entries| ==> IsCell(table, k + 1, |keys|, entries[k].value))
    && (forall p :: p in table ==> p.0 <= |entries| && if isHash then p.1 <= |keys| else p.1 < |keys|)
  }

  ghost predicate IsCell(table: Grid, row: nat, column: nat, text: string) {
    (row, column) in table && table[(row, column)] == text
  }

  /** Main result: a table of a hash map or a ring buffer that shows at least one row shows exactly these
      cells, and one without rows shows nothing. */
  lemma TableCells(v: MapValue)
    requires Shows(v) && (v.mapType == Hash || v.mapType == RingBuf)
    ensures |v.entries| == 0 ==> v.table == map[]
    ensures |v.entries| > 0 ==> ShowsCells(v.keys, v.entries, v.table, v.mapType == Hash)
  {
    if |v.entries| > 0 {
      var area := Area(|v.entries| + 1, Columns(v), 0);
      assert v.table == Cells(v.keys, v.entries, area);
      forall j | 0 <= j < |v.keys|
        ensures IsCell(v.table, 0, j, v.keys[j])
      {
        assert (0, j) in area;
      }
      forall k, j | 0 <= k < |v.entries| && 0 <= j < |v.keys|
        ensures IsCell(v.table, k + 1, j, if v.keys[j] in v.entries[k].key then v.entries[k].key[v.keys[j]] else "")
      {
        assert (k + 1, j) in area;
      }
      if v.mapType == Hash {
        ValueCells(v, area);
      }
    }
  }

  lemma ValueCells(v: MapValue, area: set<(nat, nat)>)
    requires v.mapType == Hash && area == Area(|v.entries| + 1, Columns(v), 0) && v.table == Cells(v.keys, v.entries, area)
    ensures IsCell(v.table, 0, |v.keys|, "value")
    ensures forall k :: 0 <= k < |v.entries| ==> IsCell(v.table, k + 1, |v.keys|, v.entries[k].value)
  {
    assert (0, |v.keys|) in area;
    assert v.table[(0, |v.keys|)] == VALUE_HEADER;
    forall k | 0 <= k < |v.entries|
      ensures IsCell(v.table, k + 1, |v.keys|, v.entries[k].value)
    {
      assert (k + 1, |v.keys|) in area;
    }
  }

  /** An entry of a map that is not registered, or not as a hash map or ring buffer, changes nothing. */
  lemma OthersAreIgnored(hash: Hasher, m: MapOfMaps, e: MapEntry)
    requires e.name in m ==> m[e.name].mapType != Hash && m[e.name].mapType != RingBuf
    ensures Handled(hash, m, e) == m
  {
  }

  /** A newly registered map has no rows and shows nothing; it comes last and its columns are its labels in
      order. No other map changes. */
  lemma RegisteredExactly(m: MapOfMaps, name: string, keys: seq<string>, mapType: MapType)
    ensures var r := Registered(m, name, keys, mapType);
            && r.Keys == m.Keys + {name}
            && r[name].entries == [] && r[name].table == map[] && r[name].mapType == mapType && r[name].index == |m|
            && Sorted(r[name].keys) && multiset(r[name].keys) == multiset(keys)
            && forall other :: other in m && other != name ==> r[other] == m[other]
  {
  }

  class App {
    const hash: Hasher
    /** The package-level table of maps. */
    var mapOfMaps: MapOfMaps

    constructor (hash: Hasher)
      ensures this.hash == hash && mapOfMaps == map[]
    {
      this.hash := hash;
      mapOfMaps := map[];
    }

    method MakeMapValue(name: string, keys: seq<string>, mapType: MapType)
      modifies this
      ensures mapOfMaps == Registered(old(mapOfMaps), name, keys, mapType)
    {
      var keysCopy := SortStrings(keys);
      var i := |mapOfMaps|;
      var entry := MapValue([], map[], i, mapType, keysCopy);
      mapOfMaps := mapOfMaps[name := entry];
    }

    /** The body of `watch`'s loop. */
    method Watch(r: MapEntry)
      modifies this
      ensures mapOfMaps == Handled(hash, old(mapOfMaps), r)
    {
      if r.name in mapOfMaps && mapOfMaps[r.name].mapType == Hash {
        RenderHash(r);
      } else if r.name in mapOfMaps && mapOfMaps[r.name].mapType == RingBuf {
        RenderRingBuf(r);
      }
    }

    method RenderRingBuf(incoming: MapEntry)
      requires incoming.name in mapOfMaps && mapOfMaps[incoming.name].mapType == RingBuf
      modifies this
      ensures mapOfMaps == Handled(hash, old(mapOfMaps), incoming)
    {
      var current := mapOfMaps[incoming.name];
      current := current.(entries := current.entries + [Row(incoming.entry.key, incoming.entry.value, 0)]);
      var table := DrawTable(current.table, current.keys, current.entries, false);
      current := current.(table := table);
      mapOfMaps := mapOfMaps[incoming.name := current];
    }

    method RenderHash(incoming: MapEntry)
      requires incoming.name in mapOfMaps && mapOfMaps[incoming.name].mapType == Hash
      modifies this
      ensures mapOfMaps == Handled(hash, old(mapOfMaps), incoming)
    {
      var current := mapOfMaps[incoming.name];
      var entries, same := UpsertEntry(hash, current.entries, incoming.entry);
      if same {
        return;
      }
      var table := DrawTable(current.table, current.keys, entries, true);
      current := current.(entries := entries, table := table);
      mapOfMaps := mapOfMaps[incoming.name := current];
    }
  }

  /** The part of `renderHash` that finds and updates the entry's row; `same` is the early return. */
  method UpsertEntry(hash: Hasher, entries: seq<Row>, incoming: KvPair) returns (updated: seq<Row>, same: bool)
    ensures same <==> var i := FindHash(entries, hash(incoming.key)); i < |entries| && entries[i].value == incoming.value
    ensures updated == Upserted(hash, entries, incoming)
  {
    updated, same := entries, false;
    if |entries| == 0 {
      var newHash := hash(incoming.key);
      updated := [Row(incoming.key, incoming.value, newHash)];
    } else {
      var incomingHash := hash(incoming.key);
      var idx, found := SearchHash(entries, incomingHash);
      if found {
        if incoming.value == entries[idx].value {
          OverwriteWithSameValue(entries, hash, incoming);
          same := true;
        } else {
          updated := entries[idx := entries[idx].(value := incoming.value)];
        }
      } else {
        var newHash := hash(incoming.key);
        updated := entries + [Row(incoming.key, incoming.value, newHash)];
      }
    }
  }

  /** The search loop of `renderHash`. */
  method SearchHash(entries: seq<Row>, h: nat) returns (idx: nat, found: bool)
    ensures found <==> FindHash(entries, h) < |entries|
    ensures found ==> idx == FindHash(entries, h)
  {
    idx, found := 0, false;
    for i := 0 to |entries|
      invariant !found && forall j :: 0 <= j < i ==> entries[j].hash != h
    {
      idx := i;
      if entries[idx].hash == h {
        found := true;
        break;
      }
    }
  }

  /** The drawing loops shared by `renderHash` and `renderRingBuf`: the header row, then every
      entry's row; with a value column for hash maps. */
  method DrawTable(start: Grid, keys: seq<string>, entries: seq<Row>, withValue: bool) returns (table: Grid)
    ensures table == Drawn(start, keys, entries, if withValue then |keys| + 1 else |keys|)
  {
    table := DrawHeader(start, keys, entries, withValue);
    for r := 0 to |entries|
      invariant table == start + Cells(keys, entries, Area(r + 1, if withValue then |keys| + 1 else |keys|, 0))
    {
      table := DrawRow(start, table, keys, entries, withValue, r);
    }
  }

  method DrawHeader(start: Grid, keys: seq<string>, ghost entries: seq<Row>, withValue: bool) returns (table: Grid)
    ensures table == start + Cells(keys, entries, Area(1, if withValue then |keys| + 1 else |keys|, 0))
  {
    ghost var columns := if withValue then |keys| + 1 else |keys|;
    table := start;
    NothingDrawn(start, keys, entries, columns);
    for i := 0 to |keys|
      invariant table == start + Cells(keys, entries, Area(0, columns, i))
    {
      CellAdded(start, keys, entries, 0, columns, i);
      table := table[(0, i) := keys[i]];
    }
    if withValue {
      assert Text(keys, entries, (0, |keys|)) == VALUE_HEADER;
      CellAdded(start, keys, entries, 0, columns, |keys|);
      table := table[(0, |keys|) := VALUE_HEADER];
    }
    RowCompleted(0, columns);
  }

  method DrawRow(ghost start: Grid, before: Grid, keys: seq<string>, entries: seq<Row>, withValue: bool, r: nat)
    returns (table: Grid)
    requires r < |entries|
    requires before == start + Cells(keys, entries, Area(r + 1, if withValue then |keys| + 1 else |keys|, 0))
    ensures table == start + Cells(keys, entries, Area(r + 2, if withValue then |keys| + 1 else |keys|, 0))
  {
    ghost var columns := if withValue then |keys| + 1 else |keys|;
    table := before;
    var ekMap := entries[r].key;
    var eVal := entries[r].value;
    for kk := 0 to |keys|
      invariant table == start + Cells(keys, entries, Area(r + 1, columns, kk))
    {
      CellAdded(start, keys, entries, r + 1, columns, kk);
      table := table[(r + 1, kk) := Lookup(ekMap, keys[kk])];
    }
    if withValue {
      CellAdded(start, keys, entries, r + 1, columns, |keys|);
      table := table[(r + 1, |keys|) := eVal];
    }
    RowCompleted(r + 1, columns);
  }

  lemma NothingDrawn(start: Grid, keys: seq<string>, entries: seq<Row>, columns: nat)
    ensures start + Cells(keys, entries, Area(0, columns, 0)) == start
  {
    assert Area(0, columns, 0) == {};
  }

  lemma RowCompleted(rows: nat, columns: nat)
    ensures Area(rows, columns, columns) == Area(rows + 1, columns, 0)
  {
  }

  lemma CellAdded(start: Grid, keys: seq<string>, entries: seq<Row>, rows: nat, columns: nat, last: nat)
    requires rows <= |entries|
    ensures start + Cells(keys, entries, Area(rows, columns, last + 1))
            == (start + Cells(keys, entries, Area(rows, columns, last)))[(rows, last) := Text(keys, entries, (rows, last))]
  {
    assert Area(rows, columns, last + 1) == Area(rows, columns, last) + {(rows, last)};
  }

  // ---------------------------------------------------------------- last write wins

  /** The distinct keys of a log in the order they first appear. */
  function FirstSeen(log: seq<KvPair>): seq<Labels> {
    if |log| == 0 then []
    else
      var before, k := FirstSeen(log[..|log| - 1]), log[|log| - 1].key;
      if k in before then before else before + [k]
  }

  /** The value last written for a key. */
  function Latest(log: seq<KvPair>, k: Labels): string {
    if |log| == 0 then ""
    else if log[|log| - 1].key == k then log[|log| - 1].value
    else Latest(log[..|log| - 1], k)
  }

  /** What the rows should be: one per key, in order of first appearance, with its latest value. */
  function LatestRows(hash: Hasher, log: seq<KvPair>): (rows: seq<Row>)
    ensures |rows| == |FirstSeen(log)|
  {
    var ks := FirstSeen(log);
    seq(|ks|, i requires 0 <= i < |ks| => Row(ks[i], Latest(log, ks[i]), hash(ks[i])))
  }

  ghost predicate NoCollision(hash: Hasher, log: seq<KvPair>) {
    InjectiveOn(hash, set e | e in log :: e.key)
  }

  lemma {:induction false} FirstSeenHoldsEveryKey(log: seq<KvPair>, k: Labels)
    ensures k in FirstSeen(log) <==> k in set e | e in log :: e.key
    ensures forall i, j :: 0 <= i < j < |FirstSeen(log)| ==> FirstSeen(log)[i] != FirstSeen(log)[j]
  {
    if |log| > 0 {
      var init, last := log[..|log| - 1], log[|log| - 1];
      assert log == init + [last];
      FirstSeenHoldsEveryKey(init, k);
      assert (set e | e in log :: e.key) == (set e | e in init :: e.key) + {last.key};
    }
  }

  ghost predicate WellHashed(hash: Hasher, rows: seq<Row>) {
    && (forall i, j :: 0 <= i < j < |rows| ==> rows[i].hash != rows[j].hash)
    && (forall i :: 0 <= i < |rows| ==> rows[i].hash == hash(rows[i].key))
  }

  lemma UpsertKeepsHashes(hash: Hasher, rows: seq<Row>, e: KvPair)
    requires WellHashed(hash, rows)
    ensures WellHashed(hash, Upserted(hash, rows, e))
  {
  }

  /** No two rows ever share a hash, whatever the hash function. */
  lemma {:induction false} HashesStayDistinct(hash: Hasher, log: seq<KvPair>)
    ensures WellHashed(hash, HashRows(hash, log))
  {
    if |log| > 0 {
      HashesStayDistinct(hash, log[..|log| - 1]);
      UpsertKeepsHashes(hash, HashRows(hash, log[..|log| - 1]), log[|log| - 1]);
    }
  }

  /** The row an entry lands in, when the hash tells its key from the others'. */
  lemma RowOfKey(hash: Hasher, log: seq<KvPair>)
    requires |log| > 0 && NoCollision(hash, log)
    ensures var ks, k := FirstSeen(log[..|log| - 1]), log[|log| - 1].key;
            var i := FindHash(LatestRows(hash, log[..|log| - 1]), hash(k));
            if k in ks then i < |ks| && ks[i] == k else i == |ks|
  {
    var init, k := log[..|log| - 1], log[|log| - 1].key;
    var rows, ks := LatestRows(hash, init), FirstSeen(init);
    var i := FindHash(rows, hash(k));
    if k in ks {
      var j :| 0 <= j < |ks| && ks[j] == k;
      assert rows[j].hash == hash(k);
    }
    if i < |ks| {
      assert ks[i] in ks && rows[i].hash == hash(ks[i]);
      SameHashSameKey(hash, log, ks[i], k);
    }
  }

  lemma LatestRowsStep(hash: Hasher, log: seq<KvPair>)
    requires |log| > 0 && NoCollision(hash, log)
    ensures LatestRows(hash, log) == Upserted(hash, LatestRows(hash, log[..|log| - 1]), log[|log| - 1])
  {
    var init, last := log[..|log| - 1], log[|log| - 1];
    var rows, ks := LatestRows(hash, init), FirstSeen(init);
    RowOfKey(hash, log);
    FirstSeenHoldsEveryKey(init, last.key);
    if last.key in ks {
      var i := FindHash(rows, hash(last.key));
      assert LatestRows(hash, log) == rows[i := rows[i].(value := last.value)];
    } else {
      assert LatestRows(hash, log) == rows + [Row(last.key, last.value, hash(last.key))];
    }
  }

  lemma {:induction false} RowsAreLatest(hash: Hasher, log: seq<KvPair>)
    requires NoCollision(hash, log)
    ensures HashRows(hash, log) == LatestRows(hash, log)
  {
    if |log| > 0 {
      var init, last := log[..|log| - 1], log[|log| - 1];
      assert log == init + [last];
      assert (set e | e in log :: e.key) == (set e | e in init :: e.key) + {last.key};
      RowsAreLatest(hash, init);
      LatestRowsStep(hash, log);
    }
  }

  lemma SameHashSameKey(hash: Hasher, log: seq<KvPair>, a: Labels, b: Labels)
    requires |log| > 0 && NoCollision(hash, log) && hash(a) == hash(b)
    requires a in FirstSeen(log[..|log| - 1]) && b == log[|log| - 1].key
    ensures a == b
  {
    var init, last := log[..|log| - 1], log[|log| - 1];
    assert log == init + [last];
    FirstSeenHoldsEveryKey(init, a);
    var e :| e in init && e.key == a;
    assert e in log && last in log;
  }

  /** Main result: the rows of a hash map are its keys in order of first appearance, each with its
      latest value, exactly when the hash does not collide on the keys received. */
  lemma RowsAreLatestIffNoCollision(hash: Hasher, log: seq<KvPair>)
    ensures HashRows(hash, log) == LatestRows(hash, log) <==> NoCollision(hash, log)
  {
    if NoCollision(hash, log) {
      RowsAreLatest(hash, log);
    }
    if HashRows(hash, log) == LatestRows(hash, log) {
      var keys, rows, ks := set e | e in log :: e.key, LatestRows(hash, log), FirstSeen(log);
      HashesStayDistinct(hash, log);
      forall a, b | a in keys && b in keys && hash(a) == hash(b)
        ensures a == b
      {
        FirstSeenHoldsEveryKey(log, a);
        FirstSeenHoldsEveryKey(log, b);
        var i :| 0 <= i < |ks| && ks[i] == a;
        var j :| 0 <= j < |ks| && ks[j] == b;
        assert rows[i].hash == hash(ks[i]) == hash(ks[j]) == rows[j].hash;
      }
    }
  }

  // ---------------------------------------------------------------- the tables keep up

  /** The rows a map of this type shows for a log. */
  function RowsFor(hash: Hasher, mapType: MapType, log: seq<KvPair>): seq<Row> {
    if mapType == Hash then HashRows(hash, log) else RingRows(log)
  }

  lemma RedrawShows(v: MapValue, entries: seq<Row>)
    requires Shows(v) && v.mapType in {Hash, RingBuf}
    requires |v.entries| <= |entries| && |entries| > 0
    ensures Shows(v.(entries := entries, table := Drawn(v.table, v.keys, entries, Columns(v))))
  {
    var columns := Columns(v);
    var old', new' := Area(|v.entries| + 1, columns, 0), Area(|entries| + 1, columns, 0);
    assert old' <= new';
    assert Drawn(v.table, v.keys, entries, columns) == Cells(v.keys, entries, new');
  }

  lemma OverwriteWithSameValue(entries: seq<Row>, hash: Hasher, e: KvPair)
    requires FindHash(entries, hash(e.key)) < |entries| && entries[FindHash(entries, hash(e.key))].value == e.value
    ensures Upserted(hash, entries, e) == entries
  {
  }

  /** Main result for one step: a table that shows the rows of its map's log shows the rows of the
      longer log afterwards, and every other table is left alone. */
  lemma HandledKeepsUp(hash: Hasher, m: MapOfMaps, e: MapEntry, log: seq<KvPair>)
    requires e.name in m && m[e.name].mapType in {Hash, RingBuf}
    requires Shows(m[e.name]) && m[e.name].entries == RowsFor(hash, m[e.name].mapType, log)
    ensures var r := Handled(hash, m, e);
            && r.Keys == m.Keys
            && r[e.name].mapType == m[e.name].mapType && r[e.name].keys == m[e.name].keys
            && Shows(r[e.name]) && r[e.name].entries == RowsFor(hash, m[e.name].mapType, log + [e.entry])
            && forall name :: name in m && name != e.name ==> r[name] == m[name]
  {
    var v := m[e.name];
    var longer := log + [e.entry];
    assert longer[..|log|] == log;
    if v.mapType == Hash {
      var i := FindHash(v.entries, hash(e.entry.key));
      if i < |v.entries| && v.entries[i].value == e.entry.value {
        OverwriteWithSameValue(v.entries, hash, e.entry);
      } else {
        RedrawShows(v, Upserted(hash, v.entries, e.entry));
      }
    } else {
      assert RingRows(longer) == RingRows(log) + [Row(e.entry.key, e.entry.value, 0)];
      RedrawShows(v, RingRows(longer));
    }
  }

  /** A ring buffer's rows are its log, one row per record. */
  lemma RingRowsAreTheLog(hash: Hasher, log: seq<KvPair>)
    ensures var rows := RowsFor(hash, RingBuf, log);
            && |rows| == |log|
            && forall k :: 0 <= k < |log| ==> rows[k].key == log[k].key && rows[k].value == log[k].value
  {
  }

  // ---------------------------------------------------------------- the maps are numbered

  /** The indexes of the registered maps are 0, 1, 2 and so on. */
  ghost predicate Numbered(m: MapOfMaps) {
    && (forall name :: name in m ==> m[name].index < |m|)
    && (forall a, b :: a in m && b in m && m[a].index == m[b].index ==> a == b)
  }

  lemma RegisteredKeepsNumbers(m: MapOfMaps, name: string, keys: seq<string>, mapType: MapType)
    requires Numbered(m) && name !in m
    ensures Numbered(Registered(m, name, keys, mapType))
  {
    assert |Registered(m, name, keys, mapType)| == |m| + 1;
  }

  lemma HandledKeepsNumbers(hash: Hasher, m: MapOfMaps, e: MapEntry)
    requires Numbered(m)
    ensures Numbered(Handled(hash, m, e))
  {
    var r := Handled(hash, m, e);
    assert r.Keys == m.Keys && |r| == |r.Keys| && |m| == |m.Keys|;
    assert forall name :: name in m ==> r[name].index == m[name].index;
  }
}
