/** examples/tcpconnect/tcpconnect.c: counting connects per address pair, in a bounded hash map
    and in a ring buffer. Each probe invocation is one atomic step. */
module TcpConnect {
  import opened Outcomes
  import opened Words
  import opened BpfMaps
  import opened Sockets
  import opened Threads

  const MAX_EVENTS: nat := 8192

  /** What the kernel hands a handler: the thread, its argument, the sockets' addresses as they
      read at that moment, and whether the ring buffer has room. */
  datatype Event =
    | Enter(pidTgid: U64, sk: Sock)
    | Exit(pidTgid: U64, memory: Sock -> Dimensions, reserved: bool)

  datatype State = State(sockets: map<U32, Sock>, eventsHash: map<Dimensions, U64>, eventsRing: seq<Dimensions>)

  const EMPTY := State(map[], map[], [])

  /** The address pair a handler counts: that of an exit whose thread has a socket stored. */
  ghost function Counted(s: State, e: Event): Option<Dimensions> {
    if e.Exit? && ToU32(e.pidTgid) in s.sockets then Some(e.memory(s.sockets[ToU32(e.pidTgid)])) else None
  }

  /** The value an exit stores for `d`: one, or the stored value plus one in 64 bits. */
  function OneMore(m: map<Dimensions, U64>, d: Dimensions): U64 {
    if d in m then ToU64(m[d] as int + 1) else 1
  }

  ghost function Next(s: State, e: Event): State {
    match e
    case Enter(pidTgid, sk) => s.(sockets := HashUpdate(s.sockets, MAX_SOCKETS, ToU32(pidTgid), sk))
    case Exit(pidTgid, memory, reserved) =>
      match Counted(s, e)
      case None => s
      case Some(d) =>
        State(HashDelete(s.sockets, ToU32(pidTgid)),
              HashUpdate(s.eventsHash, MAX_EVENTS, d, OneMore(s.eventsHash, d)),
              if reserved then s.eventsRing + [d] else s.eventsRing)
  }

  ghost function After(es: seq<Event>): State {
    if |es| == 0 then EMPTY else Next(After(es[..|es| - 1]), es[|es| - 1])
  }

  // ---------------------------------------------------------------- the handlers

  class Probe {
    var sockets: map<U32, Sock>
    var eventsHash: map<Dimensions, U64>
    var eventsRing: seq<Dimensions>

    ghost function Now(): State
      reads this
    {
      State(sockets, eventsHash, eventsRing)
    }

    constructor ()
      ensures Now() == EMPTY
    {
      sockets, eventsHash, eventsRing := map[], map[], [];
    }

    method EnterTcpConnect(pidTgid: U64, sk: Sock)
      modifies this
      ensures Now() == Next(old(Now()), Enter(pidTgid, sk))
    {
      var tid := ToU32(pidTgid);
      sockets := HashUpdate(sockets, MAX_SOCKETS, tid, sk);
    }

    method ExitTcpConnect(pidTgid: U64, memory: Sock -> Dimensions, reserved: bool)
      modifies this
      ensures Now() == Next(old(Now()), Exit(pidTgid, memory, reserved))
    {
      var tid := ToU32(pidTgid);
      if tid !in sockets {
        return;
      }
      ghost var e := Exit(pidTgid, memory, reserved);
      var sk := sockets[tid];
      assert Counted(Now(), e) == Some(memory(sk));
      var hashKey := memory(sk);
      var val: U64;
      if hashKey !in eventsHash {
        val := 1;
      } else {
        val := ToU64(eventsHash[hashKey] as int + 1);
      }
      assert val == OneMore(eventsHash, hashKey);
      eventsHash := HashUpdate(eventsHash, MAX_EVENTS, hashKey, val);
      sockets := HashDelete(sockets, tid);
      if !reserved {
        return;
      }
      eventsRing := eventsRing + [hashKey];
    }
  }

  // ---------------------------------------------------------------- counting over whole runs

  /** How many exits for `d` the probe has matched with a stored socket. */
  ghost function Matched(es: seq<Event>, d: Dimensions): nat {
    if |es| == 0 then 0
    else
      var init := es[..|es| - 1];
      Matched(init, d) + if Counted(After(init), es[|es| - 1]) == Some(d) then 1 else 0
  }

  /** How many of them found no room in the ring buffer. */
  ghost function Unreserved(es: seq<Event>, d: Dimensions): nat {
    if |es| == 0 then 0
    else
      var init, e := es[..|es| - 1], es[|es| - 1];
      Unreserved(init, d) + if Counted(After(init), e) == Some(d) && !e.reserved then 1 else 0
  }

  /** The address pairs matched at least once. */
  ghost function Seen(es: seq<Event>): set<Dimensions> {
    if |es| == 0 then {}
    else
      var init := es[..|es| - 1];
      match Counted(After(init), es[|es| - 1])
      case None => Seen(init)
      case Some(d) => Seen(init) + {d}
  }

  lemma {:induction false} SeenMeansMatched(es: seq<Event>, d: Dimensions)
    ensures d in Seen(es) <==> Matched(es, d) > 0
  {
    if |es| > 0 {
      SeenMeansMatched(es[..|es| - 1], d);
    }
  }

  lemma OneMoreFollows(m: map<Dimensions, U64>, d: Dimensions, count: nat)
    requires Keeps(m, MAX_EVENTS, d, count > 0, count)
    ensures d in m || count == 0 ==> OneMore(m, d) == ToU64(count + 1)
  {
    SumsWrap(count, 1);
  }

  /** A counted exit updates one count; every other step leaves the counts alone. */
  lemma CountsStep(s: State, e: Event)
    ensures Next(s, e).eventsHash ==
            match Counted(s, e)
            case None => s.eventsHash
            case Some(d) => HashUpdate(s.eventsHash, MAX_EVENTS, d, OneMore(s.eventsHash, d))
  {
  }

  /** What a present or missing count says about the run. */
  ghost predicate CountHolds(m: map<Dimensions, U64>, es: seq<Event>, d: Dimensions) {
    Keeps(m, MAX_EVENTS, d, Matched(es, d) > 0, Matched(es, d))
  }

  lemma CountHoldsStep(m: map<Dimensions, U64>, counted: Option<Dimensions>, d: Dimensions, count: nat)
    requires Keeps(m, MAX_EVENTS, d, count > 0, count)
    ensures var r := match counted case None => m case Some(other) => HashUpdate(m, MAX_EVENTS, other, OneMore(m, other));
            var next := count + if counted == Some(d) then 1 else 0;
            Keeps(r, MAX_EVENTS, d, next > 0, next)
  {
    if counted.Some? {
      var other := counted.value;
      OneMoreFollows(m, d, count);
      UpdateKeeps(m, MAX_EVENTS, other, OneMore(m, other), d, count > 0, count, count + 1);
    }
  }

  lemma {:induction false} HashCountIsExact(es: seq<Event>, d: Dimensions)
    ensures CountHolds(After(es).eventsHash, es, d)
  {
    if |es| > 0 {
      var init, e := es[..|es| - 1], es[|es| - 1];
      var counted := Counted(After(init), e);
      HashCountIsExact(init, d);
      CountsStep(After(init), e);
      CountHoldsStep(After(init).eventsHash, counted, d, Matched(init, d));
      assert Matched(es, d) == Matched(init, d) + if counted == Some(d) then 1 else 0;
    }
  }

  /** Main result: in every reachable state a present key holds exactly its number of matched
      exits, and a key can be missing only because the map is full. */
  lemma HashCountsAreExact(es: seq<Event>)
    ensures var m := After(es).eventsHash;
            && |m| <= 8192
            && (forall d :: d in m ==> Matched(es, d) > 0 && m[d] == ToU64(Matched(es, d)))
            && (forall d :: d !in m && Matched(es, d) > 0 ==> |m| == 8192)
  {
    forall d
      ensures var m := After(es).eventsHash;
              && |m| <= 8192
              && (d in m ==> Matched(es, d) > 0 && m[d] == ToU64(Matched(es, d)))
              && (d !in m && Matched(es, d) > 0 ==> |m| == 8192)
    {
      HashCountIsExact(es, d);
    }
  }

  /** Main result: the map is complete exactly while at most 8192 pairs have been seen. */
  lemma HashIsCompleteIffItFits(es: seq<Event>)
    ensures After(es).eventsHash.Keys <= Seen(es)
    ensures After(es).eventsHash.Keys == Seen(es) <==> |Seen(es)| <= 8192
  {
    HashCountsAreExact(es);
    var keys := After(es).eventsHash.Keys;
    forall d
      ensures d in Seen(es) <==> Matched(es, d) > 0
    {
      SeenMeansMatched(es, d);
    }
    assert |keys| == |After(es).eventsHash|;
    SubsetSize(keys, Seen(es));
  }

  /** Main result: the ring buffer holds one record per matched exit that found room. */
  lemma {:induction false} RingRecordsAreExact(es: seq<Event>, d: Dimensions)
    ensures multiset(After(es).eventsRing)[d] + Unreserved(es, d) == Matched(es, d)
  {
    if |es| > 0 {
      RingRecordsAreExact(es[..|es| - 1], d);
    }
  }

  // ---------------------------------------------------------------- pairing enters with exits

  function PassageOf(e: Event): Passage {
    match e
    case Enter(pidTgid, sk) => In(ToU32(pidTgid), sk)
    case Exit(pidTgid, _, _) => Out(ToU32(pidTgid))
  }

  ghost function Passages(es: seq<Event>): (ps: seq<Passage>)
    ensures |ps| == |es|
  {
    if |es| == 0 then [] else Passages(es[..|es| - 1]) + [PassageOf(es[|es| - 1])]
  }

  /** A return without a stored socket leaves the map alone, as deleting nothing does. */
  lemma SocketsStep(s: State, e: Event)
    ensures Next(s, e).sockets == Moved(s.sockets, PassageOf(e))
  {
    DeleteAbsent(s.sockets, ToU32(e.pidTgid));
  }

  lemma {:induction false} SocketsAreStored(es: seq<Event>)
    ensures After(es).sockets == Stored(Passages(es))
  {
    if |es| > 0 {
      var init, e := es[..|es| - 1], es[|es| - 1];
      SocketsAreStored(init);
      SocketsStep(After(init), e);
      PassagesStep(es);
    }
  }

  lemma PassagesStep(es: seq<Event>)
    requires |es| > 0
    ensures var ps := Passages(es);
            ps[..|ps| - 1] == Passages(es[..|es| - 1]) && ps[|ps| - 1] == PassageOf(es[|es| - 1])
  {
  }

  /** The exits that end a connect under way, without reference to any BPF map. */
  ghost function Completed(es: seq<Event>, d: Dimensions): nat {
    if |es| == 0 then 0
    else
      var init, e := es[..|es| - 1], es[|es| - 1];
      var p := Pending(Passages(init), ToU32(e.pidTgid));
      Completed(init, d) + if e.Exit? && p.Some? && e.memory(p.value) == d then 1 else 0
  }

  /** At no moment of the run are more threads in flight than `sockets` has entries. */
  ghost predicate ThreadsAlwaysFit(es: seq<Event>) {
    AlwaysFit(Passages(es))
  }

  /** Main result: counts never exceed the completed connects, and equal them when no connect
      was lost. */
  lemma {:induction false} MatchedCountsCompleted(es: seq<Event>, d: Dimensions)
    ensures Matched(es, d) <= Completed(es, d)
    ensures ThreadsAlwaysFit(es) ==> Matched(es, d) == Completed(es, d)
  {
    if |es| > 0 {
      var init, e := es[..|es| - 1], es[|es| - 1];
      MatchedCountsCompleted(init, d);
      SocketsAreStored(init);
      PassagesStep(es);
      LookupIsPending(Passages(init), ToU32(e.pidTgid));
    }
  }
}
