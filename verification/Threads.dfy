/** The `sockets` map of the tcpconnect and activeconn examples: a bounded map from a thread to the
    socket of the call it is inside of, filled on entry and emptied on return. */
module Threads {
  import opened Outcomes
  import opened Words
  import opened BpfMaps
  import opened Sockets

  const MAX_SOCKETS: nat := 8192

  /** A thread enters a probed function with a socket, or returns from one. */
  datatype Passage = In(tid: U32, sk: Sock) | Out(tid: U32)

  function Moved(m: map<U32, Sock>, p: Passage): map<U32, Sock> {
    match p
    case In(tid, sk) => HashUpdate(m, MAX_SOCKETS, tid, sk)
    case Out(tid) => HashDelete(m, tid)
  }

  /** The map after a sequence of passages. */
  ghost function Stored(ps: seq<Passage>): map<U32, Sock> {
    if |ps| == 0 then map[] else Moved(Stored(ps[..|ps| - 1]), ps[|ps| - 1])
  }

  /** The socket of the thread's call still under way, whatever the map could hold. */
  ghost function Pending(ps: seq<Passage>, tid: U32): Option<Sock> {
    if |ps| == 0 then None
    else
      var p := ps[|ps| - 1];
      if p.tid != tid then Pending(ps[..|ps| - 1], tid)
      else if p.In? then Some(p.sk)
      else None
  }

  ghost function InFlight(ps: seq<Passage>): set<U32> {
    if |ps| == 0 then {}
    else
      var init, p := InFlight(ps[..|ps| - 1]), ps[|ps| - 1];
      if p.In? then init + {p.tid} else init - {p.tid}
  }

  lemma {:induction false} InFlightMeansPending(ps: seq<Passage>, tid: U32)
    ensures tid in InFlight(ps) <==> Pending(ps, tid).Some?
  {
    if |ps| > 0 {
      InFlightMeansPending(ps[..|ps| - 1], tid);
    }
  }

  /** Main result: a stored socket is always that of the thread's own call. */
  lemma {:induction false} StoredSocketsAreCurrent(ps: seq<Passage>)
    ensures |Stored(ps)| <= 8192
    ensures forall tid :: tid in Stored(ps) ==> Pending(ps, tid) == Some(Stored(ps)[tid])
  {
    if |ps| > 0 {
      StoredSocketsAreCurrent(ps[..|ps| - 1]);
    }
  }

  /** At no moment are more threads in flight than the map has entries. */
  ghost predicate AlwaysFit(ps: seq<Passage>) {
    |ps| > 0 ==> AlwaysFit(ps[..|ps| - 1]) && |InFlight(ps)| <= 8192
  }

  /** At every moment the map holds exactly the threads in flight. */
  ghost predicate AlwaysTracked(ps: seq<Passage>) {
    |ps| > 0 ==> AlwaysTracked(ps[..|ps| - 1]) && Stored(ps).Keys == InFlight(ps)
  }

  lemma TrackingStep(ps: seq<Passage>)
    requires |ps| > 0 && Stored(ps[..|ps| - 1]).Keys == InFlight(ps[..|ps| - 1])
    ensures Stored(ps).Keys == InFlight(ps) <==> |InFlight(ps)| <= MAX_SOCKETS
  {
    StoredSocketsAreCurrent(ps);
    StoredSocketsAreCurrent(ps[..|ps| - 1]);
    var m := Stored(ps[..|ps| - 1]);
    assert |m| == |m.Keys| && |Stored(ps)| == |Stored(ps).Keys|;
  }

  /** Main result: no call is ever lost exactly when at most 8192 threads are ever inside one at once. */
  lemma {:induction false} NoneLostIffTheyFit(ps: seq<Passage>)
    ensures AlwaysTracked(ps) <==> AlwaysFit(ps)
    ensures AlwaysTracked(ps) ==> Stored(ps).Keys == InFlight(ps)
  {
    if |ps| > 0 {
      NoneLostIffTheyFit(ps[..|ps| - 1]);
      if AlwaysTracked(ps[..|ps| - 1]) {
        TrackingStep(ps);
      }
    }
  }

  /** What the map returns for a thread is its pending socket or nothing, and never nothing wrongly while
      the threads fit. */
  lemma LookupIsPending(ps: seq<Passage>, tid: U32)
    ensures tid in Stored(ps) ==> Pending(ps, tid) == Some(Stored(ps)[tid])
    ensures AlwaysFit(ps) ==> (tid in Stored(ps) <==> Pending(ps, tid).Some?)
  {
    StoredSocketsAreCurrent(ps);
    InFlightMeansPending(ps, tid);
    NoneLostIffTheyFit(ps);
  }
}
