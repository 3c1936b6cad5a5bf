/** examples/opensnoop/opensnoop.c: pairing the arguments seen on entry to open(2)/openat(2) with
    the result seen on exit, through a bounded map. */
module OpenSnoop {
  import opened Outcomes
  import opened Words
  import opened BpfMaps

  const MAX_CALLS: nat := 10240

  datatype Args = Args(fname: U64, flags: S32)

  /** No handler ever sets the `ts` field. */
  datatype Record = Record(ts: U64, pid: U32, uid: U32, ret: S32, flags: S32, comm: string, fname: string)

  /** The current task, as the helpers report it. */
  datatype Task = Task(pidTgid: U64, uidGid: U64, comm: string)

  /** `memory` reads a user-space string at the time of the exit. */
  datatype Event =
    | EnterOpen(task: Task, args: seq<U64>)
    | EnterOpenat(task: Task, args: seq<U64>)
    | Exit(task: Task, ret: S64, memory: U64 -> string, reserved: bool)

  predicate WellFormed(e: Event) {
    && (e.EnterOpen? ==> |e.args| == 6)
    && (e.EnterOpenat? ==> |e.args| == 6)
  }

  /** A tracepoint invocation; the kernel always supplies six system call arguments. */
  type Call = e: Event | WellFormed(e) witness EnterOpen(Task(0, 0, ""), [0, 0, 0, 0, 0, 0])

  function Pid(e: Event): U32 {
    ToU32(e.task.pidTgid)
  }

  /** The arguments of the call being entered: openat has the directory first. */
  function EntryArgs(e: Call): Args
    requires !e.Exit?
  {
    if e.EnterOpen? then Args(e.args[0], ToS32(e.args[1])) else Args(e.args[1], ToS32(e.args[2]))
  }

  datatype State = State(start: map<U32, Args>, events: seq<Record>)

  const EMPTY := State(map[], [])

  /** The record an exit would submit for `args`. */
  ghost function RecordFor(e: Event, args: Args): Record
    requires e.Exit?
  {
    Record(0, ToU32(e.task.pidTgid / TWO_32), ToU32(e.task.uidGid), ToS32(e.ret), args.flags, e.task.comm, e.memory(args.fname))
  }

  ghost function Emitted(s: State, e: Event): Option<Record> {
    if e.Exit? && Pid(e) in s.start && e.reserved then Some(RecordFor(e, s.start[Pid(e)])) else None
  }

  ghost function Next(s: State, e: Call): State {
    if !e.Exit? then s.(start := HashUpdate(s.start, MAX_CALLS, Pid(e), EntryArgs(e)))
    else
      match Emitted(s, e)
      case None => s
      case Some(record) => State(HashDelete(s.start, Pid(e)), s.events + [record])
  }

  ghost function After(es: seq<Call>): State {
    if |es| == 0 then EMPTY else Next(After(es[..|es| - 1]), es[|es| - 1])
  }

  // ---------------------------------------------------------------- the handlers

  class Probe {
    var start: map<U32, Args>
    var events: seq<Record>

    ghost function Now(): State
      reads this
    {
      State(start, events)
    }

    constructor ()
      ensures Now() == EMPTY
    {
      start, events := map[], [];
    }

    method SysEnterOpen(task: Task, args: seq<U64>)
      requires |args| == 6
      modifies this
      ensures Now() == Next(old(Now()), EnterOpen(task, args))
    {
      var pid := ToU32(task.pidTgid);
      start := HashUpdate(start, MAX_CALLS, pid, Args(args[0], ToS32(args[1])));
    }

    method SysEnterOpenat(task: Task, args: seq<U64>)
      requires |args| == 6
      modifies this
      ensures Now() == Next(old(Now()), EnterOpenat(task, args))
    {
      var pid := ToU32(task.pidTgid);
      start := HashUpdate(start, MAX_CALLS, pid, Args(args[1], ToS32(args[2])));
    }

    method TraceExit(task: Task, ret: S64, memory: U64 -> string, reserved: bool)
      modifies this
      ensures Now() == Next(old(Now()), Exit(task, ret, memory, reserved))
    {
      var pid := ToU32(task.pidTgid);
      if pid !in start {
        return; // missed entry
      }
      var ap := start[pid];
      var event := Record(0, ToU32(task.pidTgid / TWO_32), ToU32(task.uidGid), ToS32(ret), ap.flags, task.comm,
                          memory(ap.fname));
      if !reserved {
        return; // the entry stays
      }
      events := events + [event];
      start := HashDelete(start, pid);
    }
  }

  // ---------------------------------------------------------------- pairing

  /** The arguments of the thread's most recent entry. */
  ghost function LastEntry(es: seq<Call>, pid: U32): Option<Args> {
    if |es| == 0 then None
    else
      var e := es[|es| - 1];
      if Pid(e) == pid && !e.Exit? then Some(EntryArgs(e)) else LastEntry(es[..|es| - 1], pid)
  }

  /** The thread's most recent tracepoint of either kind. */
  ghost function LastCall(es: seq<Call>, pid: U32): Option<Call> {
    if |es| == 0 then None
    else
      var e := es[|es| - 1];
      if Pid(e) == pid then Some(e) else LastCall(es[..|es| - 1], pid)
  }

  /** The call the thread is inside of. */
  ghost function OwnCall(es: seq<Call>, pid: U32): Option<Args> {
    match LastCall(es, pid)
    case None => None
    case Some(e) => if e.Exit? then None else Some(EntryArgs(e))
  }

  lemma {:induction false} OwnCallIsLastEntry(es: seq<Call>, pid: U32)
    ensures OwnCall(es, pid).Some? ==> OwnCall(es, pid) == LastEntry(es, pid)
  {
    if |es| > 0 {
      OwnCallIsLastEntry(es[..|es| - 1], pid);
    }
  }

  /** Main result: whatever was dropped by a full map or a full ring buffer, a stored entry holds
      the thread's most recent arguments. */
  lemma {:induction false} StoredArgsAreLatest(es: seq<Call>, pid: U32)
    ensures |After(es).start| <= 10240
    ensures pid in After(es).start ==> LastEntry(es, pid) == Some(After(es).start[pid])
  {
    if |es| > 0 {
      StoredArgsAreLatest(es[..|es| - 1], pid);
    }
  }

  /** An entry outlives its call only if that call's exit found the ring buffer full. */
  lemma {:induction false} EntryOutlivesOnlyAfterFullRing(es: seq<Call>, pid: U32)
    requires pid in After(es).start
    ensures var last := LastCall(es, pid);
            last.Some? && (last.value.Exit? ==> !last.value.reserved)
  {
    var init, e := es[..|es| - 1], es[|es| - 1];
    if Pid(e) != pid {
      EntryOutlivesOnlyAfterFullRing(init, pid);
    }
  }

  /** Main result: every record carries the flags and file name of the thread's most recent entry,
      and of its own call whenever the thread is inside one. */
  lemma {:induction false} RecordsCarryOwnCall(es: seq<Call>, e: Call)
    requires e.Exit? && Emitted(After(es), e).Some?
    ensures LastEntry(es, Pid(e)).Some?
    ensures Emitted(After(es), e).value == RecordFor(e, LastEntry(es, Pid(e)).value)
    ensures OwnCall(es, Pid(e)).Some? ==> Emitted(After(es), e).value == RecordFor(e, OwnCall(es, Pid(e)).value)
  {
    StoredArgsAreLatest(es, Pid(e));
    OwnCallIsLastEntry(es, Pid(e));
  }

  // ---------------------------------------------------------------- what a record holds

  /** The low 32 bits of `n`, read as a C `int`. */
  predicate IsLowWord(v: S32, n: int) {
    (v as int - n) % 0x1_0000_0000 == 0
  }

  /** `k` is the latest entry of the thread with the given low half of `pid_tgid`. */
  ghost predicate IsLatestEntry(es: seq<Call>, k: nat, tid: int) {
    && k < |es| && !es[k].Exit? && es[k].task.pidTgid % 0x1_0000_0000 == tid
    && forall j :: k < j < |es| && !es[j].Exit? ==> es[j].task.pidTgid % 0x1_0000_0000 != tid
  }

  /** The record holds the name at the address and the flags of a system call's raw arguments: the
      first two of open, the second and third of openat. */
  ghost predicate HoldsArguments(r: Record, memory: U64 -> string, call: Call)
    requires !call.Exit?
  {
    match call
    case EnterOpen(_, args) => r.fname == memory(args[0]) && IsLowWord(r.flags, args[1])
    case EnterOpenat(_, args) => r.fname == memory(args[1]) && IsLowWord(r.flags, args[2])
  }

  lemma EntryArgsAreRaw(e: Call)
    requires !e.Exit?
    ensures var a := EntryArgs(e);
            match e
            case EnterOpen(_, args) => a.fname == args[0] && IsLowWord(a.flags, args[1])
            case EnterOpenat(_, args) => a.fname == args[1] && IsLowWord(a.flags, args[2])
  {
    match e {
      case EnterOpen(_, args) => LowWord(args[1]);
      case EnterOpenat(_, args) => LowWord(args[2]);
    }
  }

  lemma LowWord(n: int)
    ensures IsLowWord(ToS32(n), n)
  {
    var q := n / 0x1_0000_0000;
    if n % 0x1_0000_0000 < TWO_31 {
      MultipleOfWord(-q);
      assert ToS32(n) as int - n == -q * 0x1_0000_0000;
    } else {
      MultipleOfWord(-q - 1);
      assert ToS32(n) as int - n == (-q - 1) * 0x1_0000_0000;
    }
  }

  lemma MultipleOfWord(k: int)
    ensures (k * 0x1_0000_0000) % 0x1_0000_0000 == 0
  {
  }

  lemma {:induction false} LastEntryIsLatest(es: seq<Call>, pid: U32) returns (k: nat)
    requires LastEntry(es, pid).Some?
    ensures IsLatestEntry(es, k, pid) && LastEntry(es, pid) == Some(EntryArgs(es[k]))
  {
    var e := es[|es| - 1];
    if Pid(e) == pid && !e.Exit? {
      k := |es| - 1;
    } else {
      k := LastEntryIsLatest(es[..|es| - 1], pid);
    }
  }

  /** Main result: every record the probe ever writes, field by field. The timestamp is never set; the
      process is the high half of `pid_tgid`, the user the low half of `uid_gid`; the result and the
      command are the exit's; the file name and the flags are those of the raw arguments of the
      thread's latest entry. */
  lemma RecordsHoldRawValues(es: seq<Call>, e: Call) returns (r: Record, k: nat)
    requires After(es + [e]).events != After(es).events
    ensures e.Exit? && After(es + [e]).events == After(es).events + [r]
    ensures r.ts == 0 && r.comm == e.task.comm && IsLowWord(r.ret, e.ret)
    ensures r.pid == e.task.pidTgid / 0x1_0000_0000 && r.uid == e.task.uidGid % 0x1_0000_0000
    ensures IsLatestEntry(es, k, e.task.pidTgid % 0x1_0000_0000) && HoldsArguments(r, e.memory, es[k])
  {
    assert (es + [e])[..|es|] == es;
    r := Emitted(After(es), e).value;
    RecordsCarryOwnCall(es, e);
    k := LastEntryIsLatest(es, Pid(e));
    EntryArgsAreRaw(es[k]);
    LowWord(e.ret);
    HighHalf(e.task.pidTgid);
  }

  lemma HighHalf(n: U64)
    ensures 0 <= n / 0x1_0000_0000 < 0x1_0000_0000
    ensures ToU32(n / TWO_32) == n / 0x1_0000_0000
  {
  }

  // ---------------------------------------------------------------- whole runs, judged by the trace alone

  /** The threads that have entered a call and not since left one with room in the ring buffer. */
  ghost function Owing(es: seq<Call>): set<U32> {
    if |es| == 0 then {}
    else
      var init, e := Owing(es[..|es| - 1]), es[|es| - 1];
      if !e.Exit? then init + {Pid(e)}
      else if e.reserved then init - {Pid(e)}
      else init
  }

  /** At no moment of the run do more threads owe a record than `start` has entries. */
  ghost predicate OwingAlwaysFits(es: seq<Call>) {
    |es| > 0 ==> OwingAlwaysFits(es[..|es| - 1]) && |Owing(es)| <= 10240
  }

  lemma {:induction false} StoredIsOwing(es: seq<Call>)
    ensures After(es).start.Keys <= Owing(es)
    ensures OwingAlwaysFits(es) ==> After(es).start.Keys == Owing(es)
  {
    if |es| > 0 {
      var init := es[..|es| - 1];
      StoredIsOwing(init);
      if OwingAlwaysFits(es) {
        var s, e := After(init), es[|es| - 1];
        assert |s.start| == |s.start.Keys|;
        if !e.Exit? && Pid(e) !in s.start {
          assert |Owing(es)| == |Owing(init)| + 1;
        }
      }
    }
  }

  /** A thread inside a call owes its record. */
  lemma {:induction false} InsideMeansOwing(es: seq<Call>, pid: U32)
    requires OwnCall(es, pid).Some?
    ensures pid in Owing(es)
  {
    if Pid(es[|es| - 1]) != pid {
      InsideMeansOwing(es[..|es| - 1], pid);
    }
  }

  /** The records of an observer with unlimited memory, who writes one for every exit that ends a call
      and finds room in the ring buffer. */
  ghost function Ideal(es: seq<Call>): seq<Record> {
    if |es| == 0 then []
    else
      var init, e := es[..|es| - 1], es[|es| - 1];
      if e.Exit? && e.reserved && OwnCall(init, Pid(e)).Some?
      then Ideal(init) + [RecordFor(e, OwnCall(init, Pid(e)).value)]
      else Ideal(init)
  }

  /** Every exit of an owing thread that finds room in the ring buffer ends a call of that thread. */
  ghost predicate Paired(es: seq<Call>) {
    |es| > 0 ==>
      var init, e := es[..|es| - 1], es[|es| - 1];
      Paired(init) && (e.Exit? && e.reserved && Pid(e) in Owing(init) ==> OwnCall(init, Pid(e)).Some?)
  }

  lemma IdealStep(es: seq<Call>)
    requires |es| > 0 && OwingAlwaysFits(es)
    ensures var init, e := es[..|es| - 1], es[|es| - 1];
            var owing, inside := e.Exit? && e.reserved && Pid(e) in Owing(init), OwnCall(init, Pid(e)).Some?;
            && (owing && inside ==> exists r :: After(es).events == After(init).events + [r] && Ideal(es) == Ideal(init) + [r])
            && (owing && !inside ==> |After(es).events| == |After(init).events| + 1 && Ideal(es) == Ideal(init))
            && (!owing ==> After(es).events == After(init).events && Ideal(es) == Ideal(init))
  {
    var init, e := es[..|es| - 1], es[|es| - 1];
    StoredIsOwing(init);
    if OwnCall(init, Pid(e)).Some? {
      InsideMeansOwing(init, Pid(e));
    }
    if e.Exit? && Emitted(After(init), e).Some? {
      RecordsCarryOwnCall(init, e);
      var r := Emitted(After(init), e).value;
      assert After(es).events == After(init).events + [r];
    }
  }

  /** Main result: while no more than 10240 threads owe a record, the probe writes exactly the ideal
      records if and only if every exit of an owing thread with room in the ring buffer ends a call. */
  lemma {:induction false} RecordsAreIdealIffPaired(es: seq<Call>)
    requires OwingAlwaysFits(es)
    ensures After(es).events == Ideal(es) <==> Paired(es)
    ensures |Ideal(es)| <= |After(es).events|
    ensures |Ideal(es)| == |After(es).events| <==> Paired(es)
  {
    if |es| > 0 {
      RecordsAreIdealIffPaired(es[..|es| - 1]);
      IdealStep(es);
    }
  }

  ghost predicate AlwaysReserved(es: seq<Call>) {
    forall k :: 0 <= k < |es| && es[k].Exit? ==> es[k].reserved
  }

  /** Every exit follows an entry of the same thread with nothing of that thread in between. */
  ghost predicate Alternating(es: seq<Call>) {
    |es| > 0 ==>
      && Alternating(es[..|es| - 1])
      && (es[|es| - 1].Exit? ==> OwnCall(es[..|es| - 1], Pid(es[|es| - 1])).Some?)
  }

  /** When every reservation succeeds, the threads that owe a record are those inside a call. */
  lemma {:induction false} ReservedMeansInside(es: seq<Call>, pid: U32)
    requires AlwaysReserved(es)
    ensures pid in Owing(es) <==> OwnCall(es, pid).Some?
  {
    if |es| > 0 {
      var init := es[..|es| - 1];
      assert AlwaysReserved(init);
      ReservedMeansInside(init, pid);
    }
  }

  /** Main result: a run is paired if every reservation succeeds, whatever the threads do, or if every
      thread alternates, whatever the ring buffer does. */
  lemma {:induction false} ReservedOrAlternatingIsPaired(es: seq<Call>)
    requires AlwaysReserved(es) || Alternating(es)
    ensures Paired(es)
  {
    if |es| > 0 {
      var init := es[..|es| - 1];
      if AlwaysReserved(es) {
        assert AlwaysReserved(init);
        ReservedMeansInside(init, Pid(es[|es| - 1]));
      }
      ReservedOrAlternatingIsPaired(init);
    }
  }

  /** With every reservation successful, even a full map cannot produce a stale record. */
  lemma {:induction false} NeverStaleWhenReserved(es: seq<Call>, e: Call)
    requires AlwaysReserved(es) && e.Exit? && Emitted(After(es), e).Some?
    ensures OwnCall(es, Pid(e)).Some? && Emitted(After(es), e).value == RecordFor(e, OwnCall(es, Pid(e)).value)
  {
    StoredIsOwing(es);
    ReservedMeansInside(es, Pid(e));
    RecordsCarryOwnCall(es, e);
  }

  /** Without alternation a stale pairing does happen: the first exit finds the ring buffer full,
      and the second one, with no entry of its own, reports the first call again. */
  lemma StaleAfterFullRing(enter: Call, first: Call, second: Call)
    requires enter.EnterOpen? && first.Exit? && second.Exit?
    requires Pid(enter) == Pid(first) == Pid(second) && !first.reserved && second.reserved
    ensures var es: seq<Call> := [enter, first];
            && OwnCall(es, Pid(second)).None? && !Paired(es + [second])
            && Emitted(After(es), second) == Some(RecordFor(second, EntryArgs(enter)))
  {
    var es: seq<Call> := [enter, first];
    assert es[..1] == [enter] && [enter][..0] == [];
    var s := After([enter]);
    assert s == Next(After([]), enter) && s.start == map[Pid(enter) := EntryArgs(enter)];
    assert After(es) == Next(s, first);
    assert (es + [second])[..2] == es;
    StoredIsOwing(es);
  }
}
