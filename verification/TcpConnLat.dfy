/** examples/tcpconnlat/tcpconnlat.c: connect latency from two timestamps, in unsigned and signed
    64-bit arithmetic. */
module TcpConnLat {
  import opened Outcomes
  import opened Words
  import opened BpfMaps
  import opened Sockets

  const MAX_STARTS: nat := 4096
  const TCP_SYN_SENT := 2

  datatype PidData = PidData(comm: string, ts: U64, tgid: U32)

  datatype SockFields = SockFields(state: nat, family: S32, saddr: U32, daddr: U32)

  datatype Record = Record(saddr: U32, daddr: U32, comm: string, deltaUs: U64, tsUs: U64, tgid: U32, af: S32)

  datatype Event =
    | Connect(sk: Sock, pidTgid: U64, comm: string, now: U64)
    | Receive(sk: Sock, fields: SockFields, now: U64, reserved: bool)

  datatype State = State(start: map<Sock, PidData>, events: seq<Record>)

  const EMPTY := State(map[], [])

  /** `(s64)(ts - piddatap->ts)`. */
  function Delta(ts: U64, start: U64): S64 {
    ToS64(ToU64(ts as int - start))
  }

  function Started(e: Event): PidData
    requires e.Connect?
  {
    PidData(e.comm, e.now, ToU32(e.pidTgid / TWO_32))
  }

  function RecordFor(e: Event, p: PidData): Record
    requires e.Receive? && Delta(e.now, p.ts) >= 0
  {
    Record(e.fields.saddr, e.fields.daddr, p.comm, Delta(e.now, p.ts) / 1000, e.now / 1000, p.tgid, e.fields.family)
  }

  /** The stored start a received segment is measured against. */
  function Measured(s: State, e: Event): Option<PidData> {
    if e.Receive? && e.fields.state == TCP_SYN_SENT && e.sk in s.start then Some(s.start[e.sk]) else None
  }

  function Emitted(s: State, e: Event): Option<Record> {
    match Measured(s, e)
    case None => None
    case Some(p) => if Delta(e.now, p.ts) >= 0 && e.reserved then Some(RecordFor(e, p)) else None
  }

  function Next(s: State, e: Event): State {
    if e.Connect? then s.(start := HashUpdate(s.start, MAX_STARTS, e.sk, Started(e)))
    else
      match Measured(s, e)
      case None => s
      case Some(p) =>
        if Delta(e.now, p.ts) < 0 then s.(start := HashDelete(s.start, e.sk))
        else if e.reserved then s.(events := s.events + [RecordFor(e, p)])
        else s
  }

  function After(es: seq<Event>): State {
    if |es| == 0 then EMPTY else Next(After(es[..|es| - 1]), es[|es| - 1])
  }

  // ---------------------------------------------------------------- the handlers

  class Probe {
    var start: map<Sock, PidData>
    var events: seq<Record>

    ghost function Now(): State
      reads this
    {
      State(start, events)
    }

    constructor ()
      ensures Now() == EMPTY
    {
      start, events := map[], [];
    }

    method TraceConnect(sk: Sock, pidTgid: U64, comm: string, now: U64)
      modifies this
      ensures Now() == Next(old(Now()), Connect(sk, pidTgid, comm, now))
    {
      var tgid := ToU32(pidTgid / TWO_32);
      var piddata := PidData(comm, now, tgid);
      start := HashUpdate(start, MAX_STARTS, sk, piddata);
    }

    method HandleTcpRcvStateProcess(sk: Sock, fields: SockFields, now: U64, reserved: bool)
      modifies this
      ensures Now() == Next(old(Now()), Receive(sk, fields, now, reserved))
    {
      if fields.state != TCP_SYN_SENT {
        return;
      }
      if sk !in start {
        return;
      }
      var piddata := start[sk];
      var ts := now;
      var delta := ToS64(ToU64(ts as int - piddata.ts));
      if delta < 0 {
        start := HashDelete(start, sk);
        return;
      }
      var event := Record(fields.saddr, fields.daddr, piddata.comm, delta / 1000, ts / 1000, piddata.tgid, fields.family);
      if !reserved {
        return;
      }
      events := events + [event];
    }
  }

  // ---------------------------------------------------------------- over whole runs

  ghost function LastConnect(es: seq<Event>, sk: Sock): Option<PidData> {
    if |es| == 0 then None
    else
      var e := es[|es| - 1];
      if e.Connect? && e.sk == sk then Some(Started(e)) else LastConnect(es[..|es| - 1], sk)
  }

  /** Main result: a stored start is that of the most recent connect on the socket, even though
      entries are left behind and updates can fail. */
  lemma {:induction false} StoredStartIsLatest(es: seq<Event>, sk: Sock)
    ensures |After(es).start| <= 4096
    ensures sk in After(es).start ==> LastConnect(es, sk) == Some(After(es).start[sk])
  {
    if |es| > 0 {
      StoredStartIsLatest(es[..|es| - 1], sk);
    }
  }

  /** `k` is the latest connect on the socket. */
  ghost predicate IsLatestConnect(es: seq<Event>, k: nat, sk: Sock) {
    && k < |es| && es[k].Connect? && es[k].sk == sk
    && forall j :: k < j < |es| && es[j].Connect? ==> es[j].sk != sk
  }

  /** Main result: what is kept of a connect are its command, its clock and the high half of its
      `pid_tgid`. */
  lemma {:induction false} StartsHoldRawValues(es: seq<Event>, sk: Sock) returns (k: nat)
    requires LastConnect(es, sk).Some?
    ensures IsLatestConnect(es, k, sk)
    ensures var p := LastConnect(es, sk).value;
            p.ts == es[k].now && p.comm == es[k].comm && p.tgid == es[k].pidTgid / 0x1_0000_0000
  {
    var e := es[|es| - 1];
    if e.Connect? && e.sk == sk {
      k := |es| - 1;
    } else {
      k := StartsHoldRawValues(es[..|es| - 1], sk);
    }
  }

  /** The 64-bit difference is negative exactly when the clock reads earlier than the start or
      at least 2^63 nanoseconds later; below 2^63 on both sides, exactly when it reads earlier. */
  lemma DeltaSign(ts: U64, start: U64)
    ensures Delta(ts, start) < 0 <==> start - TWO_63 <= ts < start || start + TWO_63 <= ts
    ensures ts < TWO_63 && start < TWO_63 ==> (Delta(ts, start) < 0 <==> ts < start)
    ensures 0 <= Delta(ts, start) && start <= ts ==> Delta(ts, start) == ts - start
  {
  }

  /** Rounding both times to microseconds: their difference is the start in whole microseconds, one
      more exactly when the start's remainder exceeds what is left of the clock's. */
  lemma MicrosecondRounding(ts: nat, start: nat)
    requires start <= ts
    ensures var delta := (ts - start) / 1000;
            && 1000 * delta <= ts - start < 1000 * delta + 1000
            && ts / 1000 - delta == start / 1000 + if ts % 1000 < (ts - start) % 1000 then 1 else 0
  {
    var a, b, r, s := ts / 1000, (ts - start) / 1000, ts % 1000, (ts - start) % 1000;
    assert start == 1000 * (a - b) + (r - s);
  }

  /** Main result: a record measures its segment against the latest connect on the socket, stated from the
      two events alone. */
  lemma RecordsMeasureConnectEvent(es: seq<Event>, e: Event) returns (r: Record, k: nat)
    requires After(es + [e]).events != After(es).events
    requires e.now < TWO_63 && forall j :: 0 <= j < |es| && es[j].Connect? ==> es[j].now < TWO_63
    ensures e.Receive? && e.fields.state == 2 && After(es + [e]).events == After(es).events + [r]
    ensures IsLatestConnect(es, k, e.sk) && es[k].now <= e.now
    ensures r.comm == es[k].comm && r.tgid == es[k].pidTgid / 0x1_0000_0000
    ensures r.saddr == e.fields.saddr && r.daddr == e.fields.daddr && r.af == e.fields.family
    ensures 1000 * r.deltaUs <= e.now - es[k].now < 1000 * r.deltaUs + 1000
    ensures 1000 * r.tsUs <= e.now < 1000 * r.tsUs + 1000
  {
    assert (es + [e])[..|es|] == es;
    r := Emitted(After(es), e).value;
    StoredStartIsLatest(es, e.sk);
    k := StartsHoldRawValues(es, e.sk);
    RecordsMeasureLatestConnect(es, e);
  }

  /** Main result: which segments produce a record, and what the record says, in any run whose
      clock stays below 2^63 nanoseconds. */
  lemma RecordsMeasureLatestConnect(es: seq<Event>, e: Event)
    requires e.Receive? && e.now < TWO_63
    requires forall p :: LastConnect(es, e.sk) == Some(p) ==> p.ts < TWO_63
    ensures Emitted(After(es), e).Some? <==>
            && e.fields.state == TCP_SYN_SENT && e.reserved && e.sk in After(es).start
            && LastConnect(es, e.sk).Some? && LastConnect(es, e.sk).value.ts <= e.now
    ensures Emitted(After(es), e).Some? && LastConnect(es, e.sk).Some? ==>
              var p, record := LastConnect(es, e.sk).value, Emitted(After(es), e).value;
              && (record.comm, record.tgid) == (p.comm, p.tgid)
              && (record.saddr, record.daddr, record.af) == (e.fields.saddr, e.fields.daddr, e.fields.family)
              && 1000 * record.deltaUs <= e.now - p.ts < 1000 * record.deltaUs + 1000
              && record.tsUs - record.deltaUs in {p.ts / 1000, p.ts / 1000 + 1}
  {
    StoredStartIsLatest(es, e.sk);
    if e.sk in After(es).start {
      var p := After(es).start[e.sk];
      DeltaSign(e.now, p.ts);
      if p.ts <= e.now {
        MicrosecondRounding(e.now, p.ts);
      }
    }
  }

  /** The sockets with a connect that no SYN_SENT segment with an earlier clock has followed. */
  ghost function Live(es: seq<Event>): set<Sock> {
    if |es| == 0 then {}
    else
      var init, e := es[..|es| - 1], es[|es| - 1];
      if e.Connect? then Live(init) + {e.sk}
      else if ClockRanBack(init, e) then Live(init) - {e.sk}
      else Live(init)
  }

  /** A SYN_SENT segment whose clock reads earlier than the socket's latest connect. */
  ghost predicate ClockRanBack(es: seq<Event>, e: Event) {
    && e.Receive? && e.fields.state == TCP_SYN_SENT
    && LastConnect(es, e.sk).Some? && Delta(e.now, LastConnect(es, e.sk).value.ts) < 0
  }

  /** At no moment of the run are more sockets live than `start` has entries. */
  ghost predicate LiveAlwaysFits(es: seq<Event>) {
    |es| > 0 ==> LiveAlwaysFits(es[..|es| - 1]) && |Live(es)| <= 4096
  }

  /** At every moment of the run `start` holds exactly the live sockets. */
  ghost predicate AlwaysStored(es: seq<Event>) {
    |es| > 0 ==> AlwaysStored(es[..|es| - 1]) && After(es).start.Keys == Live(es)
  }

  lemma {:induction false} StoredIsLive(es: seq<Event>)
    ensures After(es).start.Keys <= Live(es)
  {
    if |es| > 0 {
      var init, e := es[..|es| - 1], es[|es| - 1];
      StoredIsLive(init);
      StoredStartIsLatest(init, e.sk);
    }
  }

  lemma StoringStep(es: seq<Event>)
    requires |es| > 0 && After(es[..|es| - 1]).start.Keys == Live(es[..|es| - 1])
    requires |Live(es[..|es| - 1])| <= MAX_STARTS
    ensures After(es).start.Keys == Live(es) <==> |Live(es)| <= MAX_STARTS
  {
    var init, e := es[..|es| - 1], es[|es| - 1];
    var s, t := After(init).start, After(es).start;
    StoredStartIsLatest(init, e.sk);
    assert |s| == |s.Keys| && |t| == |t.Keys|;
    if e.Connect? {
      assert Live(es) == s.Keys + {e.sk};
    } else {
      LiveShrinks(init, Live(init), e);
    }
  }

  lemma LiveShrinks(es: seq<Event>, live: set<Sock>, e: Event)
    requires After(es).start.Keys == live && |live| <= MAX_STARTS && e.Receive?
    ensures var left := if ClockRanBack(es, e) then live - {e.sk} else live;
            Next(After(es), e).start.Keys == left && |left| <= MAX_STARTS
  {
    StoredStartIsLatest(es, e.sk);
    StoredIsLive(es);
    var left := live - {e.sk};
    assert |live| == |left| + |live - left|;
  }

  /** Main result: every socket's start is kept, until its connect is repeated or a clock runs back,
      exactly when at most 4096 sockets are ever live at once. */
  lemma {:induction false} StartsAreKeptIffTheyFit(es: seq<Event>)
    ensures AlwaysStored(es) <==> LiveAlwaysFits(es)
    ensures AlwaysStored(es) ==> After(es).start.Keys == Live(es) && |Live(es)| <= MAX_STARTS
  {
    if |es| > 0 {
      StartsAreKeptIffTheyFit(es[..|es| - 1]);
      if AlwaysStored(es[..|es| - 1]) {
        StoringStep(es);
      }
    }
  }

  /** Main result: while the live sockets fit and the clock stays below 2^63, a segment produces a
      record exactly when it finds its socket live and in SYN_SENT, the clock not behind the latest
      connect, and room in the ring buffer. */
  lemma LiveSegmentsAreRecorded(es: seq<Event>, e: Event)
    requires e.Receive? && e.now < TWO_63 && LiveAlwaysFits(es)
    requires forall p :: LastConnect(es, e.sk) == Some(p) ==> p.ts < TWO_63
    ensures Emitted(After(es), e).Some? <==>
            && e.fields.state == TCP_SYN_SENT && e.reserved && e.sk in Live(es)
            && LastConnect(es, e.sk).Some? && LastConnect(es, e.sk).value.ts <= e.now
  {
    StartsAreKeptIffTheyFit(es);
    RecordsMeasureLatestConnect(es, e);
  }
}
