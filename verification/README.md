# BumbleBee: a verified model of the probe-to-screen pipeline

BumbleBee loads an eBPF program, watches the maps the program fills, and turns their raw bytes into
Prometheus metrics and terminal tables. This project models that pipeline in Dafny and proves what it
delivers over every run:

* **probes** (`TcpConnect`, `ActiveConn`, `OpenSnoop`, `TcpConnLat`, over `BpfMaps`, `Threads` and `Words`): each
  handler is a method on a class whose fields are the BPF maps, proved against one transition function
  `Next`; the theorems are about `After(es)`, the state after any sequence of invocations. Maps are
  bounded and drop insertions silently, ring-buffer reservations may fail, words wrap at 64 bits.
* **decoder** (`Bytes`, `Btf`, `Decoding`, `Reference`, `RoundTrip`, `Memory`, `Layouts`): the mutable cursor is
  proved against `Decode`, a pure description of what each type makes of the bytes it consumes.
  `Reference` states from the bytes what each kind of type decodes to, and `RoundTrip` proves the
  decoder inverse to an encoder of the consumed bytes. `Memory` stores values in their
  whole declared size and `Layouts` puts them at the offsets a compiler gives them, which the decoder
  never looks at; both prove exactly what it therefore reads back.
* **labels and instruments** (`Labelling`, `Stats`, `Loading`): `stringify`, the label lists of `Parse`,
  counters fed with absolute values, the poll of a hash map and the handling of a ring record.
* **the whole path** (`EndToEnd`, `GaugeToEnd`, over `PairKeys`): the tcpconnect probe with both readers
  and both counters, and the activeconn probe with the poll and the gauge, interleaved step by step in
  any order. `Screen` joins the first of these with the interface: from the kernel's count to the row
  of the table.
* **terminal interface** (`Filters`, `Tables`, `Lifecycle`, `Display`, `Draining`): filters, the row
  lists and drawing loops, and the producers, the channel of capacity 20 and its one consumer as a
  state machine over atomic steps.

`Outcome` has three cases: `Ok`, `Err` for a Go error value, and `Crash` for a panic or `log.Fatal`.

Two assumptions run through the project. Probe invocations are atomic steps. And the 64-bit label
hash is an arbitrary function; results that need it to tell labels apart say so by
`InjectiveOn`, `CollisionFree`, `CollisionFreeOn` or `NoCollision` over the label maps that occur, and
`RowsAreLatestIffNoCollision` shows that condition to be exactly the right one.

Places where the code does not do what one would expect are proved as such:

* A gauge whose first recorded operation is a close starts at 1 and stays two too high
  (`ActiveConn.ClosedFirstIsOffByTwo`); it is the recorded opens minus the recorded closes exactly when an
  open was recorded first (`ActiveConn.WordIsNetIffOpenedFirst`). A call whose thread finds no room in
  `sockets` is not recorded (`ActiveConn.LostCallIsNotRecorded`); while at most 8192 threads are inside
  calls at once, every call is (`ActiveConn.RecordedCallsAreAll`).
* After an exit that found the ring buffer full, `opensnoop` keeps the entry, and a later exit without
  an entry of its own reports it again (`OpenSnoop.StaleAfterFullRing`). While the threads that owe a
  record fit the map, the records are right exactly when every exit of such a thread that finds room
  ends a call (`OpenSnoop.RecordsAreIdealIffPaired`), a condition on the trace of calls and reservations
  alone; it holds whenever every reservation succeeds (`OpenSnoop.ReservedOrAlternatingIsPaired`).
* A map type `WatchMaps` does not support makes `Load` close the channel under the producers already
  started (`Lifecycle.UnsupportedMapPanics`); no interleaving panics exactly when all types are supported
  or the filter drops every entry of those that are (`Lifecycle.NoSendOnClosedIff`), and `Parse` never
  lets it happen (`Lifecycle.ParsedMapsNeverPanic`).
* A char array without a NUL, or a buffer shorter than the type, panics. `RoundTrip.StructDecodesExactly`
  is the exact condition for success, `RoundTrip.StructFailsExactly` those for a panic and for an error.
* Integers of encoding bool or char consume no bytes, so a flag is lost and its neighbour reads the
  flag's byte (`Layouts.FlagSwallowsNeighbour`); and the declared offsets are ignored. A struct is read
  back from memory, for all values, exactly when it has no padding, no such integer, and, where the high
  byte comes first, no integer of fewer bits than its size (`Layouts.StructReadsBackIff`,
  `Memory.NarrowIsMisread`). The kprobetcp example depends on its `packed` attribute for that
  (`Layouts.PackedAttributeMatters`).
* A ring buffer in a section that says gauge, and neither counter nor print, has no instrument: its first
  record ends the loop, with a panic if it decodes (`Loading.GaugeSectionPanics`).
* For label sets with the registered names, a sequence of non-negative values kills the process exactly
  when some label set's value decreases (`Stats.SetCounterTelescopes`). Other label names kill it too;
  those decoded with the registered struct are never others (`Loading.RegisteredLabelsAccepted`).

## Model

| member | source | states |
|---|---|---|
| EndToEnd.HashCounterFollowsPolls | pkg/loader/loader.go:366-406 | in every interleaving of probe, record and poll steps the process survives and each seen pair's hash counter is the number of matched connects at its last poll, even past 2^63, provided a poll comes at least every 2^63 connects |
| EndToEnd.RingCounterFollowsRecords | pkg/loader/loader.go:329-352 | in every interleaving the ring counter of a pair is the number of its records among those consumed |
| EndToEnd.ExportedCounts | pkg/loader/loader.go:299-413 | after the ring is drained and every key polled in any order, the hash counter is the matched connects (zero if the map was full) and the ring counter is that less the failed reservations |
| EndToEnd.CountersAgreeIffNothingWasDropped | examples/tcpconnect/tcpconnect.c:48-103 | both exported counters equal the matched connects for every pair exactly when at most 8192 pairs were seen and no reservation failed |
| EndToEnd.CountersEqualCompletedConnects | examples/tcpconnect/tcpconnect.c:36-103 | with nothing dropped, both counters are the completed connects, counted from calls and returns without any BPF map |
| PairKeys.EntryReads | pkg/loader/loader.go:381-400 | the raw key and value bytes of an entry of `events_hash` or `sockets_ext` reach `Set` as the stored word under the two dotted-quad addresses, in both byte orders |
| PairKeys.KeyDecodes | pkg/loader/loader.go:339-345 | the bytes of `struct dimensions_t` decode and print as the two dotted-quad addresses under the registered label names |
| PairKeys.LabelsInjective | pkg/loader/loader.go:415-422 | no two address pairs share a label map |
| GaugeToEnd.GaugeShowsLastPoll | pkg/loader/loader.go:366-406 | in every interleaving of probe and poll steps the process survives, and each pair's gauge is the signed reading of its word at the last poll, absent if never found |
| GaugeToEnd.GaugeIsNetIffOpenedFirst | pkg/stats/stats.go:168-174 | the exported gauge is recorded opens minus recorded closes as of its last poll exactly when an open was recorded first and the difference fits 64 signed bits |
| GaugeToEnd.GaugeIsTrueNetIffOpenedFirst | examples/activeconn/activeconn.c:28-80 | judged by calls and returns alone: while at most 8192 threads are inside calls at once, the exported gauge is opens minus closes exactly when the pair's first call was an open and the difference fits |
| Screen.CountsReachTheScreen | pkg/tui/tui.go:166-275 | at every moment of every interleaving of probe, poll, channel and consumer, with any filter: a pair's one row in the table of `events_hash` shows the decimal of its matched connects at the poll whose entry was last handled, and there is no row for other pairs |
| Screen.CountsReachTheCells | pkg/tui/tui.go:166-275 | the same in the grid: under daddr, saddr and value, a pair's two dotted quads and the numeral of its count stand in one row, and its addresses in no other |
| Screen.ProducedIsRead | pkg/loader/loader.go:366-406 | the producer of `events_hash` has handed on exactly what its polls have read, in order |
| Screen.FinalScreen | pkg/tui/tui.go:166-181 | at rest, if that producer did not fail, the entries handled are all that its polls read and the filter passed |
| TcpConnect.Probe.EnterTcpConnect | examples/tcpconnect/tcpconnect.c:36-46 | the handler's effect on all three maps is the transition `Next` |
| TcpConnect.Probe.ExitTcpConnect | examples/tcpconnect/tcpconnect.c:48-103 | the handler's effect on all three maps is the transition `Next`, with early returns for a missing thread and a full ring buffer |
| TcpConnect.HashCountsAreExact | examples/tcpconnect/tcpconnect.c:76-86 | in every reachable state a present key holds exactly its number of matched exits modulo 2^64, and a key can be missing only because the map is full |
| TcpConnect.HashIsCompleteIffItFits | examples/tcpconnect/tcpconnect.c:23-28 | the map's keys are exactly the pairs seen if and only if at most 8192 were seen |
| TcpConnect.RingRecordsAreExact | examples/tcpconnect/tcpconnect.c:89-100 | records for a pair plus its failed reservations are its matched exits |
| Threads.StoredSocketsAreCurrent | examples/tcpconnect/tcpconnect.c:39-44 | a stored socket is always the one of the thread's call still under way |
| Threads.NoneLostIffTheyFit | examples/tcpconnect/tcpconnect.c:15-21 | `sockets` holds exactly the threads inside a call throughout a run if and only if never more than 8192 are |
| TcpConnect.SocketsAreStored | examples/tcpconnect/tcpconnect.c:36-87 | the probe's `sockets` is that map for its calls and returns |
| ActiveConn.SocketsAreStored | examples/activeconn/activeconn.c:28-80 | so is this probe's |
| TcpConnect.MatchedCountsCompleted | examples/tcpconnect/tcpconnect.c:48-87 | matched exits never exceed completed connects and equal them when the threads in flight always fit |
| ActiveConn.Probe.EnterTcpConnect | examples/activeconn/activeconn.c:28-38 | the handler's effect on both maps is the transition `Next` |
| ActiveConn.Probe.Record | examples/activeconn/activeconn.c:40-80 | the handler's effect on both maps is the transition `Next` |
| ActiveConn.WordIsNetPlusBias | examples/activeconn/activeconn.c:68-77 | in every reachable state a present word is recorded opens minus recorded closes, plus one minus the first recorded operation, modulo 2^64; a recorded key is missing only if the map is full |
| ActiveConn.WordIsNetIffOpenedFirst | examples/activeconn/activeconn.c:68-77 | the word is recorded opens minus recorded closes modulo 2^64 exactly when the first recorded operation was an open |
| ActiveConn.ExportedIsNetIffItFits | examples/activeconn/activeconn.c:68-77 | in every reachable state the signed reading of the stored word is recorded opens minus recorded closes exactly when an open was recorded first and the difference fits 64 signed bits |
| ActiveConn.RecordedCallsAreAll | examples/activeconn/activeconn.c:40-80 | while at most 8192 threads are inside calls at once, the recorded operations are those of all calls, counted from calls and returns without any BPF map |
| ActiveConn.LostCallIsNotRecorded | examples/activeconn/activeconn.c:55-59 | a call whose thread found no room changes the true difference and nothing else |
| ActiveConn.ClosedFirstIsOffByTwo | examples/activeconn/activeconn.c:69-72 | a run whose first operation is a close stores 1 where the difference is -1 |
| OpenSnoop.Probe.SysEnterOpen | examples/opensnoop/opensnoop.c:53-69 | stores the file name pointer and flags under the thread: the transition `Next` |
| OpenSnoop.Probe.SysEnterOpenat | examples/opensnoop/opensnoop.c:71-87 | the same with the arguments shifted by the directory |
| OpenSnoop.Probe.TraceExit | examples/opensnoop/opensnoop.c:89-127 | emits a record, its timestamp left zero, and deletes the entry, or keeps the entry when the ring buffer is full: the transition `Next` |
| OpenSnoop.StoredArgsAreLatest | examples/opensnoop/opensnoop.c:63-66 | despite a full map or failed reservations, a stored entry holds the thread's most recent arguments |
| OpenSnoop.EntryOutlivesOnlyAfterFullRing | examples/opensnoop/opensnoop.c:114-125 | an entry is still there after its call's exit only if that exit found the ring buffer full |
| OpenSnoop.RecordsCarryOwnCall | examples/opensnoop/opensnoop.c:97-119 | every record carries the thread's most recent arguments, and its own call's when the thread is inside one |
| OpenSnoop.RecordsHoldRawValues | examples/opensnoop/opensnoop.c:53-127 | every record of every run, field by field from raw values: no timestamp, the process and user from the halves of the task's words, the exit's result and command, and the name and flags of the raw arguments of the thread's latest open (first and second) or openat (second and third) |
| OpenSnoop.StoredIsOwing | examples/opensnoop/opensnoop.c:63-66 | entries belong to threads that entered and have not left with room in the ring buffer, and are all of them while those fit the map |
| OpenSnoop.RecordsAreIdealIffPaired | examples/opensnoop/opensnoop.c:89-127 | while the owing threads fit the map, the records of a run are those of an observer with unlimited memory exactly when every exit of an owing thread that finds room ends a call |
| OpenSnoop.ReservedOrAlternatingIsPaired | examples/opensnoop/opensnoop.c:112-125 | that condition holds if every reservation succeeds, and if every thread alternates enters and exits |
| OpenSnoop.NeverStaleWhenReserved | examples/opensnoop/opensnoop.c:97-119 | if every reservation succeeds, even a full map never leads to a record that is not of the call being left |
| OpenSnoop.StaleAfterFullRing | examples/opensnoop/opensnoop.c:114-125 | an input on which a record repeats an earlier call |
| TcpConnLat.Probe.TraceConnect | examples/tcpconnlat/tcpconnlat.c:46-59 | the handler's effect is the transition `Next` |
| TcpConnLat.Probe.HandleTcpRcvStateProcess | examples/tcpconnlat/tcpconnlat.c:61-109 | the handler's effect is the transition `Next`, in 64-bit unsigned subtraction read as signed |
| TcpConnLat.StoredStartIsLatest | examples/tcpconnlat/tcpconnlat.c:54-57 | a stored start is that of the most recent connect on the socket, though entries are left behind and updates fail |
| TcpConnLat.DeltaSign | examples/tcpconnlat/tcpconnlat.c:75-80 | exactly when the signed difference is negative, for all pairs of words and for times below 2^63 |
| TcpConnLat.MicrosecondRounding | examples/tcpconnlat/tcpconnlat.c:82-91 | the bounds on the rounded latency, and exactly when clock minus latency exceeds the start in whole microseconds |
| TcpConnLat.RecordsMeasureLatestConnect | examples/tcpconnlat/tcpconnlat.c:61-109 | over any run, which segments produce a record, that it measures the latest connect on the socket, and its rounding |
| TcpConnLat.StartsHoldRawValues | examples/tcpconnlat/tcpconnlat.c:46-58 | what is kept of a connect: its command, its clock, and the high half of its task word |
| TcpConnLat.RecordsMeasureConnectEvent | examples/tcpconnlat/tcpconnlat.c:61-109 | every record measures its segment against the latest connect on the socket, field by field from the two events |
| TcpConnLat.StartsAreKeptIffTheyFit | examples/tcpconnlat/tcpconnlat.c:54-80 | every socket's start is stored, from its connect until a clock reads earlier, throughout a run exactly when at most 4096 sockets are ever live at once |
| TcpConnLat.LiveSegmentsAreRecorded | examples/tcpconnlat/tcpconnlat.c:61-109 | while they fit and the clock stays below 2^63, which segments produce a record, from the trace of connects and segments alone |
| BpfMaps.UpdateKeeps | examples/tcpconnect/tcpconnect.c:86 | an ignored-failure update keeps every other key's count and can leave out only a key new to a full map |
| Decoding.Decoder.DecodeBtfBinary | pkg/decoder/decoder.go:47-88 | the result is a function of byte order, type and buffer alone, whatever the decoder did before, and the cursor ends at the sum of the sizes |
| Decoding.Decoder.ProcessMembers | pkg/decoder/decoder.go:55-66 | the struct loop computes the first failure, or every member read at the sum of the sizes before it |
| Decoding.Decoder.ProcessSingleType | pkg/decoder/decoder.go:90-135 | one value at the cursor is what its type makes of its own bytes, and the cursor moves by the type's size |
| Decoding.Decoder.Take | pkg/decoder/decoder.go:193-194 | the slice and the advanced cursor in `uint32` arithmetic; panics exactly when the slice leaves the buffer |
| Decoding.Decoder.HandleArray | pkg/decoder/decoder.go:138-165 | the byte-by-byte loop yields the bytes before the first NUL, and panics without one |
| Decoding.Decoder.HandleFloat | pkg/decoder/decoder.go:167-187 | the bit pattern of a float of 4 or 8 bytes |
| Decoding.Decoder.HandleUint | pkg/decoder/decoder.go:189-222 | an unsigned word of the declared bits from the declared bytes, or an error for other widths or too few bytes |
| Decoding.Decoder.HandleInt | pkg/decoder/decoder.go:224-256 | its two's complement reading |
| Decoding.Decoder.U64ToDuration | pkg/decoder/decoder.go:268-275 | the nanoseconds fit a signed word and read back as the given one; an error for any other value |
| Decoding.Decoder.U32ToIp | pkg/decoder/decoder.go:277-285 | four bytes that read back as the given word in the build's byte order; an error for any other value |
| Decoding.GetUnderlyingType | pkg/decoder/decoder.go:258-265 | a typedef chain of any depth resolves to its first non-typedef |
| Decoding.IndexByte | pkg/decoder/decoder.go:162 | the first index of a byte, or -1 |
| Decoding.FailureDecides | pkg/decoder/decoder.go:59-63 | the first failing member decides, whatever follows |
| Reference.ReadWordIsWord | pkg/decoder/decoder.go:195-200 | the bytes read are the base-256 digits of the word, least significant first or last |
| Reference.PutWordIsWord | pkg/decoder/decoder.go:282-283 | so are the bytes written |
| Reference.IntegersDecode | pkg/decoder/decoder.go:189-256 | an integer of 8, 16, 32 or 64 bits is its first bytes read as a word, or that word's two's complement reading |
| Reference.IntegersRejected | pkg/decoder/decoder.go:189-256 | exactly which integers are rejected for their width and for their size |
| Reference.FloatsDecode | pkg/decoder/decoder.go:167-187 | a float is the bit pattern of its 4 or 8 bytes; no other size is read |
| Reference.ArraysDecode | pkg/decoder/decoder.go:138-165 | exactly the arrays of one-byte integers named char are read, as the bytes before the first NUL; a missing NUL is a panic and each other array its own error |
| Reference.NamesDecide | pkg/decoder/decoder.go:106-126 | what the names duration, ipv4_addr and ipv6_addr do to which values, and that no other name does anything |
| Reference.SinglesDecode | pkg/decoder/decoder.go:54-87 | integers, floats and typedefs decode to one value under the empty name; arrays and other kinds but structs are rejected |
| Reference.OtherMembersRejected | pkg/decoder/decoder.go:132-134 | a member that is a struct or of another kind is rejected |
| Reference.LastOfANameIsKept | pkg/decoder/decoder.go:58-66 | when member names repeat, the last one's value is kept |
| RoundTrip.StructDecodesExactly | pkg/decoder/decoder.go:55-66 | a struct decodes if and only if it fits buffer and cursor, every member type is supported and every char array is terminated |
| RoundTrip.StructFailsExactly | pkg/decoder/decoder.go:55-66 | it panics if and only if the first member that does not decode is out of range or an unterminated char array, and returns an error if and only if that member is neither but of an unsupported type |
| RoundTrip.ChunkDecodesExactly | pkg/decoder/decoder.go:90-135 | the same for one value of any type |
| RoundTrip.MemberReadsItsOwnBytes | pkg/decoder/decoder.go:59-65 | each member's value depends only on the slice starting at the sum of the preceding sizes |
| RoundTrip.TrailingBytesIgnored | pkg/decoder/decoder.go:47-88 | appending bytes never changes a result or an error |
| Memory.StoreIntExtends | pkg/decoder/decoder.go:189-256 | an integer stored in more bytes than its bits is its word extended with its sign on the most significant side, in both byte orders |
| Memory.StoredIntReadsBackIff | pkg/decoder/decoder.go:189-256 | such an integer is read back exactly when the bits fill its size, the low byte comes first, or its bytes are all alike |
| Memory.StoredValueReadsBackIff | pkg/decoder/decoder.go:90-135 | for every supported type and value, in both byte orders: what a program stores is what the decoder reads, exactly when the type is no bool or char integer (or the value is the zero of one) and the declared bits come first (or the bytes are all alike) |
| Memory.StoredSingleReadsBackIff | pkg/decoder/decoder.go:67-84 | the same for a typedef, float or integer decoded on its own, whatever follows it |
| Memory.NarrowIsMisread | pkg/decoder/decoder.go:202-207 | an input on which a narrow integer reads back as another number |
| Layouts.CursorAtOffsetsIff | pkg/decoder/decoder.go:58-66 | the cursor is at every member's declared offset exactly when there is no padding and no bool or char integer before the last member |
| Layouts.StructReadsBackIff | pkg/decoder/decoder.go:47-66 | all values, stored at their members' declared offsets with arbitrary bytes around them, decode to themselves exactly when the struct has no padding, no bool or char integer, no narrow integer where the high byte comes first, and fewer than 2^32 bytes |
| Layouts.FlagSwallowsNeighbour | pkg/decoder/decoder.go:95-101 | an input on which a bool is lost and the next member reads its byte |
| Layouts.PackedAttributeMatters | examples/kprobetcp/handler.c:9-14 | the example's packed event always reads back; without the attribute some image would not |
| RoundTrip.ChunkRoundTrip | pkg/decoder/decoder.go:90-135 | the bytes consumed for any value a type can yield decode to that value, in both byte orders |
| RoundTrip.StructRoundTrip | pkg/decoder/decoder.go:47-66 | the bytes consumed for the fields of a struct with distinct names decode to every field, whatever follows |
| RoundTrip.SingleRoundTrip | pkg/decoder/decoder.go:67-84 | the same for a typedef, float or integer on its own |
| RoundTrip.ChunkReencodes | pkg/decoder/decoder.go:90-285 | a decoded value is one its type can hold, and re-encoding it restores the consumed bytes, except what follows a string's NUL and what lies beyond an integer's declared bits |
| RoundTrip.DecodedMembersAreLegal | pkg/decoder/decoder.go:55-66 | every decoded struct consists of values its members can hold |
| RoundTrip.DecodedIsCollected | pkg/decoder/decoder.go:58-66 | a decoded struct is nothing but its field values |
| RoundTrip.StructReencodes | pkg/decoder/decoder.go:47-285 | re-encoding the fields of any decoded struct restores the consumed bytes, except char-array bytes after the first NUL and integer bytes beyond the declared bits |
| RoundTrip.CanonicalWithoutArrays | pkg/decoder/decoder.go:138-165 | without char arrays, and with integers whose bits fill their size (`Tight`), that is every consumed byte |
| RoundTrip.OnlyOutermostNameMatters | pkg/decoder/decoder.go:106-126 | a typedef chain of any depth decodes as its outermost typedef over the base type |
| RoundTrip.AddressBytesInMemoryOrder | pkg/decoder/decoder.go:277-285 | an address decodes to its raw bytes in memory order under both byte orders |
| Bytes.PutThenRead | pkg/decoder/decoder.go:193-222 | reading a word written in the same byte order gives it back |
| Bytes.ReadThenPut | pkg/decoder/decoder.go:282-283 | writing a word read in the same byte order restores the bytes |
| Labelling.Stringify | pkg/loader/loader.go:415-422 | the loop renders every decoded field under its own name, in any iteration order |
| Labelling.GetLabelsForBtfStruct | pkg/loader/loader.go:433-439 | the member names in declaration order |
| Labelling.LabelsMatchRegistration | pkg/loader/loader.go:415-439 | the labels of a decoded struct are exactly the registered label names |
| Labelling.DecimalIsNumeral | pkg/loader/loader.go:401 | an unsigned number is shown as digits that denote it, without superfluous zeros |
| Labelling.SignedDecimalIsNumeral | pkg/loader/loader.go:418 | a signed one as the numeral of its magnitude, after '-' exactly if it is negative |
| Labelling.DottedQuadIsNumerals | pkg/loader/loader.go:418 | an address, split at its dots, is the numerals of its four bytes in order |
| Labelling.LabelsShowValues | pkg/loader/loader.go:415-422 | every label of a decoded struct shows its own field's value |
| Labelling.DecimalInjective | pkg/loader/loader.go:418 | distinct numbers print differently |
| Labelling.SignedDecimalInjective | pkg/loader/loader.go:418 | so do distinct signed numbers |
| Labelling.DottedQuadInjective | pkg/loader/loader.go:418 | so do distinct addresses |
| Labelling.LabelsDetermineValues | pkg/loader/loader.go:415-422 | structs of integers, strings and addresses with the same label map hold the same values |
| Labelling.LabelsDetermineKeyBytes | pkg/loader/loader.go:381-399 | keys of integers and addresses with the same label map are the same bytes |
| Stats.SetCounter.constructor | pkg/stats/stats.go:83-94 | a new counter has no series and no remembered values |
| Stats.SetCounter.Set | pkg/stats/stats.go:133-151 | the new memory, series and outcome, including the return on an equal value and the panics on foreign labels or a negative delta |
| Stats.SetCounter.Add | pkg/stats/stats.go:150 | the vector's `With(..).Add(..)`: a series starts at zero, grows by the delta, and panics on foreign labels or a negative delta |
| Stats.UnchangedValueDoesNothing | pkg/stats/stats.go:144-148 | setting the remembered value creates no series and overlooks even foreign labels |
| Stats.NewValueExactly | pkg/stats/stats.go:149-150 | any other value is remembered, and then the outcome and every series are given case by case, foreign labels and a negative difference included |
| Stats.IncrementCounter.Increment | pkg/stats/stats.go:157-162 | one series grows by one, the others stay; foreign labels panic |
| Stats.Gauge.Set | pkg/stats/stats.go:168-174 | one series takes the value, the others stay; foreign labels panic |
| Stats.SetFollowsTotal | pkg/stats/stats.go:144-150 | one call moves the exported counter to the new total across a wrap of the word, without a panic, if totals are less than 2^63 apart |
| Stats.SetLeavesOthers | pkg/stats/stats.go:144-150 | label sets with another hash are untouched |
| Stats.SeriesFollowTotals | pkg/stats/stats.go:133-151 | over any sequence of growing totals every series equals its last total |
| Stats.SetCounterTelescopes | pkg/stats/stats.go:133-151 | for non-negative values the counter survives a sequence exactly when no label set's value decreases, and then exports the last ones |
| Stats.OrderOfCallsIrrelevant | pkg/stats/stats.go:133-151 | calls for distinct label sets commute: any two orders are survived together and leave the same instrument |
| Loading.ParseMap | pkg/loader/loader.go:109-143 | one tracked map is admitted exactly when it is a ring buffer with a struct value or a hash with a struct key; the watched map and the stripped spec; and exactly when each error and the panic occur |
| Loading.Parse | pkg/loader/loader.go:103-150 | succeeds exactly when every tracked map is such a map, and then watches exactly the tracked maps, in any iteration order |
| Loading.WatchedExactly | pkg/loader/loader.go:109-143 | which specs are admitted and what is watched of them: a ring buffer's labels and record struct are its value's members, a hash map's labels its key's |
| Loading.ContainsMeansPart | pkg/loader/loader.go:75-85 | a section contains a word if and only if it is something, the word, and something |
| Loading.SectionsSelect | pkg/loader/loader.go:69-89 | the sections .maps.counter, .maps.gauge and .maps.print each select their own kind, and .maps none |
| Loading.TrackedMeansSomeWord | pkg/loader/loader.go:87-89 | a map is tracked exactly if its section contains one of the three words |
| Loading.HashMapsAreRegistered | pkg/loader/loader.go:273-286 | the instruments of a hash map are registered for the very struct by which its keys are decoded |
| Loading.ReadEntryExactly | pkg/loader/loader.go:381-400 | an entry is read exactly if key and value decode and the value is one unsigned 64-bit integer, and then with that integer and the key's labels; otherwise the first decoding failure, or the end of the process |
| Loading.ReadRecordExactly | pkg/loader/loader.go:339-344 | a record is read exactly if it decodes, with labels that show its fields |
| Loading.DecodeEntry | pkg/loader/loader.go:381-399 | what one key and value stand for, independent of the decoder's past; exits on a value that is not one unsigned 64-bit integer |
| Loading.PollHashMap | pkg/loader/loader.go:369-406 | instrument contents, entries sent and outcome after polling any list of entries, stopping at the first failure |
| Loading.NewIncrement | pkg/loader/loader.go:261-266 | a fresh counter with the registered label names, no counting, or no instrument at all, by section |
| Loading.NewSetInstrument | pkg/loader/loader.go:274-282 | a fresh counter or gauge with the registered label names, or no recording, by section |
| Loading.HandleRecord | pkg/loader/loader.go:339-351 | one ring record, with whichever instrument: its decoded labels are counted and sent, or the failure ends the loop with the instrument unchanged |
| Loading.StartRingBuf | pkg/loader/loader.go:329-352 | the loop over any sequence of records: instrument contents, entries sent and outcome, stopping at the first failure |
| Loading.RingBufCountsEveryRecord | pkg/loader/loader.go:259-270 | on a ring buffer admitted by `Parse` in a counter or print section the loop ends early exactly on a record that does not decode, never on account of the instrument; it sends every record's labels in order, and each series is the number of records with its labels |
| Loading.RingBufSurvivesIff | pkg/loader/loader.go:259-270 | on an admitted ring buffer, records that all decode are survived exactly when the section says counter or print |
| Loading.GaugeSectionPanics | pkg/loader/loader.go:261-266 | otherwise the first of any records ends the loop, with a panic if it decodes, and nothing is ever sent |
| Loading.DistinctKeysDistinctLabels | pkg/loader/loader.go:381-399 | distinct kernel keys of integers and addresses get distinct labels |
| Loading.PollIsCalls | pkg/loader/loader.go:369-406 | with a counter, a gauge or none, a poll of readable entries is the sequence of `Set` calls they stand for and sends each of them |
| Loading.PollSetsEverySeries | pkg/loader/loader.go:369-406 | a poll of any snapshot of a map with integer and address keys succeeds, sends every entry, leaves every key's series equal to its kernel value (as a signed word in a gauge), and touches no other series; a counter needs a hash that does not collide on the snapshot and totals that have not decreased |
| Loading.PollOrderIrrelevant | pkg/loader/loader.go:369-406 | polling a snapshot in any iteration order has the same outcome and leaves the same counter, gauge or nothing |
| Loading.RegisteredLabelsAccepted | pkg/loader/loader.go:339-345 | the labels decoded from a record are exactly the names registered for its map |
| Filters.BuildFilter | pkg/tui/filter.go:30-66 | success exactly when the arguments come in threes and every triple names a watched map, one of its labels and a valid pattern; each map gets its last triple; otherwise the first bad triple decides |
| Filters.TripleExactly | pkg/tui/filter.go:45-58 | a triple is accepted exactly if it names a watched map, one of its labels and a valid pattern; which error otherwise |
| Filters.CommandLineDecides | pkg/tui/filter.go:10-66 | what any accepted command line does to any entry with its map's registered labels: without arguments it passes; otherwise it passes if no triple names its map, or exactly if the last such triple's pattern matches |
| Filters.NoFilterPassesAll | pkg/tui/filter.go:11-14 | without a filter every entry passes |
| Filters.MissingLabelIsDropped | pkg/tui/filter.go:20-27 | an entry without the label its map's filter names is dropped |
| Filters.FilterMatch | pkg/tui/filter.go:10-28 | the search loop decides `Passes`, in any iteration order |
| Filters.FilterLooksAtItsLabel | pkg/tui/filter.go:10-66 | an entry with its map's registered labels passes a built filter exactly when its map has no triple or the last triple's pattern matches its label's value |
| Tables.App.MakeMapValue | pkg/tui/tui.go:291-313 | registers an empty table with sorted columns under the map's type |
| Tables.App.Watch | pkg/tui/tui.go:170-175 | one entry's effect on all tables is `Handled`; entries of unknown maps are dropped |
| Tables.App.RenderRingBuf | pkg/tui/tui.go:183-210 | appends a row and redraws |
| Tables.App.RenderHash | pkg/tui/tui.go:212-275 | overwrites or appends the key's row and redraws, or returns early on an equal value |
| Tables.UpsertEntry | pkg/tui/tui.go:215-244 | the row list after an entry, and exactly when the early return is taken |
| Tables.SearchHash | pkg/tui/tui.go:222-230 | the first row with a hash |
| Tables.DrawTable | pkg/tui/tui.go:249-274 | the loops set exactly the header, every row and the value column |
| Tables.TableCells | pkg/tui/tui.go:249-274 | cell by cell, what a table that shows its rows holds: the column names and "value", each entry's label under each column or blank, its value, and nothing else |
| Tables.UpsertedExactly | pkg/tui/tui.go:215-244 | an entry changes only the value of the first row with its hash, or becomes the last row |
| Tables.RegisteredExactly | pkg/tui/tui.go:291-313 | a newly registered map has no rows, its labels in order as columns, its type, and the next index |
| Tables.StringLeqMeansFirstDifference | pkg/tui/tui.go:295 | that order is by the first differing character, then by length |
| Tables.OthersAreIgnored | pkg/tui/tui.go:170-175 | entries of other maps change nothing |
| Tables.RingRowsAreTheLog | pkg/tui/tui.go:183-185 | a ring buffer's rows are its log, one row per record |
| Tables.SortStrings | pkg/tui/tui.go:293-295 | a sorted permutation |
| Tables.HashesStayDistinct | pkg/tui/tui.go:212-244 | no two rows ever share a hash, whatever the hash function |
| Tables.RowsAreLatestIffNoCollision | pkg/tui/tui.go:212-244 | the rows are the keys in order of first appearance with their latest values exactly when the hash does not collide on the keys received |
| Tables.HandledKeepsUp | pkg/tui/tui.go:166-275 | a table that shows the rows of its map's log still does after one more entry, early return included, and no other table changes |
| Lifecycle.NoSendOnClosedIff | pkg/loader/loader.go:247-297 | no interleaving sends on the closed channel exactly when `WatchMaps` gets only supported map types or the filter drops every entry of the supported ones |
| Lifecycle.ParsedMapsNeverPanic | pkg/loader/loader.go:125-157 | what `Parse` admits never leads to a send on the closed channel, in any interleaving, producers failing included |
| Lifecycle.UnsupportedMapPanics | pkg/loader/loader.go:288-290 | a schedule on which an unsupported map type beside a supported one with an entry that passes leads to such a send |
| Lifecycle.ClosedLastAlways | pkg/loader/loader.go:157 | with supported map types, at every reachable state the channel is closed exactly when `Load` has returned, and then no producer is running |
| Lifecycle.EntriesAreConserved | pkg/tui/tui.go:285-289 | at every reachable state the queue holds at most 20 entries, and a map's filter-passing entries are those handled, those queued and those its producer still holds, in order |
| Lifecycle.SendersWaitIffFull | pkg/tui/tui.go:137-289 | with supported maps a producer with an entry to send is held up exactly while the entry passes the filter and twenty are queued |
| Lifecycle.NoFilterConservesAll | pkg/tui/filter.go:11-14 | without a filter all that a producer has read is handled, queued or still held, in order; only a failed producer drops entries |
| Lifecycle.FinishedMeansCancelledAlways | pkg/loader/loader.go:254-294 | at every reachable state, once a producer has failed, or returned at all, everybody is cancelled |
| Lifecycle.FailureIsPossible | pkg/loader/loader.go:339-342 | a producer that is reading or offering entries may fail at any moment, which finishes it and cancels everybody |
| Lifecycle.CancellationIsPossible | pkg/tui/tui.go:133-134 | everything may be cancelled at any moment |
| Lifecycle.IdleProducersCanRead | pkg/loader/loader.go:320-337 | until a cancellation every idle producer can take any entry of its map |
| Display.TablesShowHandledEntries | pkg/tui/tui.go:166-181 | at every reachable state each registered table shows exactly the entries handled for its map, and nothing was sent before its map was registered under its own type |
| Display.TablesShowCells | pkg/tui/tui.go:166-275 | at every reachable state each registered table holds exactly the cells of the entries handled for its map: a ring buffer's one by one, a hash map's one row per key with its latest value if the hash does not collide |
| Display.TablesAreNumbered | pkg/tui/tui.go:303-313 | whatever order the maps register in, their indexes are 0, 1, 2 and so on, each once |
| Draining.NeverDeadlocked | pkg/tui/tui.go:166-181 | in every state with the closed-last invariant (so every reachable one, with supported map types) some step is possible unless all are at rest or every producer waits for input |
| Draining.EveryOtherStepCounts | pkg/loader/loader.go:320-337 | every step other than a fresh tick or record lowers the measure of work left |
| Draining.DrainingIsBounded | pkg/loader/loader.go:366-411 | without fresh input no run is longer than the measure |
| Draining.EveryDrainingRunRests | pkg/loader/loader.go:254-296 | once cancelled, whatever the order of steps, a run with nothing left to do but take fresh input has all producers finished, the channel closed and the consumer returned |
| Draining.FailureBringsRest | pkg/loader/loader.go:254-296 | a run in which a producer has failed and nothing is left to do but take fresh input is at rest |
| Draining.NothingIsDropped | pkg/tui/filter.go:11-14 | without a filter, all that a producer has read is handled in the end, unless it failed |
| Draining.ComesToRest | pkg/loader/loader.go:254-296 | from every reachable cancelled state some run without fresh input gets there |
| Draining.OnlyRestIsFinal | pkg/loader/loader.go:294-296 | a maximal run ends at rest, or waits for input without having been cancelled, every producer still there, able to take input, and none failed |
| Draining.FinalTables | pkg/tui/tui.go:166-181 | at rest, every passing entry of a producer that did not fail has been handled, and without collisions a hash map's table shows each key's latest value in order of first appearance |

## Left out

- Lost updates between CPUs: a probe invocation is one atomic step, although the code looks up and then updates without a lock; exact counts do not hold otherwise.
- Kernel hash iteration under concurrent updates: a poll is a sequence of steps that each read one key's current value; a snapshot is one list of entries.
- The `hashstructure` algorithm: hashes are an arbitrary function of the label map; the assumption that it does not collide is a named predicate over the label maps concerned.
- Decoding.Decoder.Take: a Go slice may extend past its length up to its capacity; the model takes the capacity to be the length.
- Float and duration rendering, and addresses of other lengths than four bytes: parameters of `Formats`. Floats are bit patterns; label injectivity excludes floats and durations.
- A poll's `Iterate` errors and ring-buffer read errors that the loop skips: neither changes any state of the model. A failing iterator ends the producer as `Fail`.
- Prometheus itself: series are integers, so `float64` rounding above 2^53, registration, exposition and HTTP are absent.
- Stats.SetCounter.Add: the vector's `With` also panics on label values that are not valid UTF-8, which char arrays can hold; the model takes label values to be valid. The same goes for Stats.IncrementCounter.Increment and Stats.Gauge.Set.
- Bit fields: a member has a byte offset and the size of its type.
- Loading.Parse: the specs are values, so the change of a shared `*MapSpec` in place is returned as a new map of specs; a map without BTF crashes as the nil dereference does.
- ELF loading, attachment, pinning and `createDir`: foreign calls. The lifecycle model has one step for any failure before `WatchMaps`.
- The error values of the two errgroups: only that the first failure cancels everyone is modelled.
- tview: a table is a grid of strings, queued redraws have no effect, and `nextTable`/`prevTable`, which return without releasing their read lock when they find the table, are absent; progress is claimed for runs without table switching. Single reads and writes of `mapOfMaps` are atomic.
- Regular expressions: which patterns compile and what they match are parameters.
- The handlers of the capable, exitsnoop, oomkill and kprobetcp examples: they emit events without keeping state.
- The OCI commands, `bee init` templates, prompts and the build scripts: thin wrappers over other libraries.
