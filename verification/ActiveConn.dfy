/** examples/activeconn/activeconn.c: a gauge of open connections per address pair, kept as an
    unsigned word to which +1 or -1 is added. */
module ActiveConn {
  import opened Outcomes
  import opened Words
  import opened BpfMaps
  import opened Sockets
  import opened Threads

  const MAX_PAIRS: nat := 8192

  /** `tcp_v4_connect` records +1, `tcp_close` records -1. */
  type Op = op: int | op == 1 || op == -1 witness 1

  datatype Event =
    | Enter(pidTgid: U64, sk: Sock)
    | Return(pidTgid: U64, memory: Sock -> Dimensions, op: Op)

  datatype State = State(sockets: map<U32, Sock>, socketsExt: map<Dimensions, U64>)

  const EMPTY := State(map[], map[])

  /** The address pair a returning call records an operation for. */
  ghost function Recorded(s: State, e: Event): Option<Dimensions> {
    if e.Return? && ToU32(e.pidTgid) in s.sockets then Some(e.memory(s.sockets[ToU32(e.pidTgid)])) else None
  }

  /** The stored word after one more operation; the first one stores 1 whatever it is. */
  function Adjusted(m: map<Dimensions, U64>, d: Dimensions, op: Op): U64 {
    if d in m then ToU64(m[d] as int + op) else 1
  }

  ghost function Next(s: State, e: Event): State {
    match e
    case Enter(pidTgid, sk) => s.(sockets := HashUpdate(s.sockets, MAX_SOCKETS, ToU32(pidTgid), sk))
    case Return(pidTgid, _, op) =>
      match Recorded(s, e)
      case None => s
      case Some(d) => State(HashDelete(s.sockets, ToU32(pidTgid)),
                            HashUpdate(s.socketsExt, MAX_PAIRS, d, Adjusted(s.socketsExt, d, op)))
  }

  ghost function After(es: seq<Event>): State {
    if |es| == 0 then EMPTY else Next(After(es[..|es| - 1]), es[|es| - 1])
  }

  // ---------------------------------------------------------------- the handlers

  class Probe {
    var sockets: map<U32, Sock>
    var socketsExt: map<Dimensions, U64>

    ghost function Now(): State
      reads this
    {
      State(sockets, socketsExt)
    }

    constructor ()
      ensures Now() == EMPTY
    {
      sockets, socketsExt := map[], map[];
    }

    method EnterTcpConnect(pidTgid: U64, sk: Sock)
      modifies this
      ensures Now() == Next(old(Now()), Enter(pidTgid, sk))
    {
      var tid := ToU32(pidTgid);
      sockets := HashUpdate(sockets, MAX_SOCKETS, tid, sk);
    }

    method Record(pidTgid: U64, memory: Sock -> Dimensions, op: Op)
      modifies this
      ensures Now() == Next(old(Now()), Return(pidTgid, memory, op))
    {
      var tid := ToU32(pidTgid);
      if tid !in sockets {
        return;
      }
      ghost var e := Return(pidTgid, memory, op);
      var sk := sockets[tid];
      assert Recorded(Now(), e) == Some(memory(sk));
      var key := memory(sk);
      var val: U64;
      if key !in socketsExt {
        val := 1;
      } else {
        val := ToU64(socketsExt[key] as int + op);
      }
      assert val == Adjusted(socketsExt, key, op);
      socketsExt := HashUpdate(socketsExt, MAX_PAIRS, key, val);
      sockets := HashDelete(sockets, tid);
    }
  }

  // ---------------------------------------------------------------- what the word stands for

  /** Opens minus closes recorded for `d`. */
  ghost function Net(es: seq<Event>, d: Dimensions): int {
    if |es| == 0 then 0
    else
      var init, e := es[..|es| - 1], es[|es| - 1];
      Net(init, d) + if Recorded(After(init), e) == Some(d) then e.op else 0
  }

  /** The first operation recorded for `d`. */
  ghost function FirstOp(es: seq<Event>, d: Dimensions): Option<Op> {
    if |es| == 0 then None
    else
      var init, e := es[..|es| - 1], es[|es| - 1];
      if FirstOp(init, d).None? && Recorded(After(init), e) == Some(d) then Some(e.op) else FirstOp(init, d)
  }

  /** What the word counts: it starts at 1 whatever the first operation was. */
  ghost function Value(es: seq<Event>, d: Dimensions): int {
    match FirstOp(es, d)
    case None => 0
    case Some(first) => Net(es, d) + 1 - first
  }

  lemma AdjustedFollows(m: map<Dimensions, U64>, d: Dimensions, op: Op, recorded: bool, value: int)
    requires Keeps(m, MAX_PAIRS, d, recorded, value)
    ensures d in m ==> Adjusted(m, d, op) == ToU64(value + op)
    ensures d !in m ==> Adjusted(m, d, op) == ToU64(1)
  {
    SumsWrap(value, op);
  }

  /** One more recorded operation adds to the value, or makes it 1. */
  lemma ValueStep(es: seq<Event>, d: Dimensions)
    requires |es| > 0
    ensures var init, e := es[..|es| - 1], es[|es| - 1];
            if Recorded(After(init), e) == Some(d)
            then FirstOp(es, d).Some? && Value(es, d) == if FirstOp(init, d).Some? then Value(init, d) + e.op else 1
            else FirstOp(es, d) == FirstOp(init, d) && Value(es, d) == Value(init, d)
  {
    if FirstOp(es[..|es| - 1], d).None? {
      NothingRecordedIsZero(es[..|es| - 1], d);
    }
  }

  lemma {:induction false} NothingRecordedIsZero(es: seq<Event>, d: Dimensions)
    requires FirstOp(es, d).None?
    ensures Net(es, d) == 0
  {
    if |es| > 0 {
      NothingRecordedIsZero(es[..|es| - 1], d);
    }
  }

  /** A recording call updates one word; every other step leaves the words alone. */
  lemma WordsStep(s: State, e: Event)
    ensures Next(s, e).socketsExt ==
            match Recorded(s, e)
            case None => s.socketsExt
            case Some(d) => HashUpdate(s.socketsExt, MAX_PAIRS, d, Adjusted(s.socketsExt, d, e.op))
  {
  }

  /** What a present or missing word says about the run. */
  ghost predicate WordHolds(m: map<Dimensions, U64>, es: seq<Event>, d: Dimensions) {
    Keeps(m, 8192, d, FirstOp(es, d).Some?, Value(es, d))
  }

  lemma WordStep(m: map<Dimensions, U64>, counted: Option<Dimensions>, op: Op, d: Dimensions, recorded: bool, value: int)
    requires Keeps(m, MAX_PAIRS, d, recorded, value)
    ensures var r := match counted case None => m case Some(other) => HashUpdate(m, MAX_PAIRS, other, Adjusted(m, other, op));
            Keeps(r, MAX_PAIRS, d, recorded || counted == Some(d),
                  if counted == Some(d) then (if recorded then value + op else 1) else value)
  {
    if counted.Some? {
      var other := counted.value;
      AdjustedFollows(m, d, op, recorded, value);
      UpdateKeeps(m, MAX_PAIRS, other, Adjusted(m, other, op), d, recorded, value, if recorded then value + op else 1);
    }
  }

  /** Main result: in every reachable state, full map or not, a present word is congruent to opens
      minus closes plus one minus the first operation; a key with operations can be missing only
      because the map is full. */
  lemma {:induction false} WordIsNetPlusBias(es: seq<Event>, d: Dimensions)
    ensures WordHolds(After(es).socketsExt, es, d)
  {
    if |es| > 0 {
      var init, e := es[..|es| - 1], es[|es| - 1];
      WordIsNetPlusBias(init, d);
      WordsStep(After(init), e);
      ValueStep(es, d);
      WordStep(After(init).socketsExt, Recorded(After(init), e), if e.Return? then e.op else 1, d,
               FirstOp(init, d).Some?, Value(init, d));
    }
  }

  /** A word that starts from `first` shows the net exactly when `first` was an open. */
  lemma BiasShows(word: U64, net: int, first: Op)
    requires word == ToU64(net + 1 - first)
    ensures word == ToU64(net) <==> first == 1
  {
    if first == -1 {
      TwoApartDiffer(net);
    }
  }

  /** Main result: the word is opens minus closes modulo 2^64 exactly when the first recorded
      operation was an open. */
  lemma WordIsNetIffOpenedFirst(es: seq<Event>, d: Dimensions)
    requires d in After(es).socketsExt
    ensures FirstOp(es, d).Some?
    ensures After(es).socketsExt[d] == ToU64(Net(es, d)) <==> FirstOp(es, d).value == 1
  {
    WordIsNetPlusBias(es, d);
    var first := FirstOp(es, d).value;
    assert Value(es, d) == Net(es, d) + 1 - first;
    BiasShows(After(es).socketsExt[d], Net(es, d), first);
  }

  /** The signed reading of the word is the true difference exactly when, in addition, the difference
      fits a signed word. */
  lemma ExportedIsNetIffItFits(es: seq<Event>, d: Dimensions)
    requires d in After(es).socketsExt
    ensures FirstOp(es, d).Some?
    ensures ToS64(After(es).socketsExt[d]) == Net(es, d)
            <==> FirstOp(es, d).value == 1 && -TWO_63 <= Net(es, d) < TWO_63
  {
    WordIsNetIffOpenedFirst(es, d);
    SignedReading(After(es).socketsExt[d], Net(es, d));
  }

  // ---------------------------------------------------------------- judged by the calls alone

  function PassageOf(e: Event): Passage {
    match e
    case Enter(pidTgid, sk) => In(ToU32(pidTgid), sk)
    case Return(pidTgid, _, _) => Out(ToU32(pidTgid))
  }

  ghost function Passages(es: seq<Event>): (ps: seq<Passage>)
    ensures |ps| == |es|
  {
    if |es| == 0 then [] else Passages(es[..|es| - 1]) + [PassageOf(es[|es| - 1])]
  }

  lemma PassagesStep(es: seq<Event>)
    requires |es| > 0
    ensures var ps := Passages(es);
            ps[..|ps| - 1] == Passages(es[..|es| - 1]) && ps[|ps| - 1] == PassageOf(es[|es| - 1])
  {
  }

  /** A return without a stored socket leaves the map alone, as deleting nothing does. */
  lemma SocketsStep(s: State, e: Event)
    ensures Next(s, e).sockets == Moved(s.sockets, PassageOf(e))
  {
    DeleteAbsent(s.sockets, ToU32(e.pidTgid));
  }

  lemma {:induction false} SocketsAreStored(es: seq<Event>)
    ensures After(es).sockets == Stored(Passages(es))
  {
    if |es| > 0 {
      var init, e := es[..|es| - 1], es[|es| - 1];
      SocketsAreStored(init);
      SocketsStep(After(init), e);
      PassagesStep(es);
    }
  }

  ghost predicate ThreadsAlwaysFit(es: seq<Event>) {
    AlwaysFit(Passages(es))
  }

  /** The address pair whose call a return ends, without reference to any BPF map. */
  ghost function Ended(es: seq<Event>, e: Event): Option<Dimensions> {
    var p := Pending(Passages(es), ToU32(e.pidTgid));
    if e.Return? && p.Some? then Some(e.memory(p.value)) else None
  }

  /** Opens minus closes that were called and returned from. */
  ghost function TrueNet(es: seq<Event>, d: Dimensions): int {
    if |es| == 0 then 0
    else
      var init, e := es[..|es| - 1], es[|es| - 1];
      TrueNet(init, d) + if Ended(init, e) == Some(d) then e.op else 0
  }

  /** The first of those calls. */
  ghost function TrueFirstOp(es: seq<Event>, d: Dimensions): Option<Op> {
    if |es| == 0 then None
    else
      var init, e := es[..|es| - 1], es[|es| - 1];
      if TrueFirstOp(init, d).None? && Ended(init, e) == Some(d) then Some(e.op) else TrueFirstOp(init, d)
  }

  lemma RecordedMeansEnded(es: seq<Event>, e: Event)
    requires ThreadsAlwaysFit(es)
    ensures Recorded(After(es), e) == Ended(es, e)
  {
    SocketsAreStored(es);
    LookupIsPending(Passages(es), ToU32(e.pidTgid));
  }

  /** Main result: while at most 8192 threads are ever inside a call at once, every call is recorded. */
  lemma {:induction false} RecordedCallsAreAll(es: seq<Event>, d: Dimensions)
    requires ThreadsAlwaysFit(es)
    ensures Net(es, d) == TrueNet(es, d) && FirstOp(es, d) == TrueFirstOp(es, d)
  {
    if |es| > 0 {
      var init, e := es[..|es| - 1], es[|es| - 1];
      PassagesStep(es);
      RecordedCallsAreAll(init, d);
      RecordedMeansEnded(init, e);
    }
  }

  /** A call whose thread found no room in `sockets` changes the true difference but not the word. */
  lemma LostCallIsNotRecorded(es: seq<Event>, e: Event, d: Dimensions)
    requires Ended(es, e) == Some(d) && ToU32(e.pidTgid) !in After(es).sockets
    ensures TrueNet(es + [e], d) == TrueNet(es, d) + e.op
    ensures Net(es + [e], d) == Net(es, d) && After(es + [e]) == After(es)
  {
    assert (es + [e])[..|es|] == es;
  }

  /** A close recorded first leaves the gauge two too high. */
  lemma ClosedFirstIsOffByTwo(tid: U32, sk: Sock, memory: Sock -> Dimensions)
    ensures var es := [Enter(tid, sk), Return(tid, memory, -1)];
            var d := memory(sk);
            && d in After(es).socketsExt
            && After(es).socketsExt[d] == 1
            && Net(es, d) == -1
  {
    var enter, close := Enter(tid, sk), Return(tid, memory, -1);
    var es := [enter, close];
    assert es[..1] == [enter] && [enter][..0] == [];
    assert ToU32(tid) == tid;
    var s := After([enter]);
    assert s == Next(After([]), enter) && s.sockets == map[tid := sk];
    assert Recorded(s, close) == Some(memory(sk));
    assert After(es) == Next(s, close);
    assert Net([enter], memory(sk)) == Net([], memory(sk)) == 0;
  }
}
