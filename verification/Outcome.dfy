/** The three ways a Go call can end: a result, an error value, or the end of the process. */
module Outcomes {

  /** `Crash` stands for a run-time panic and for `log.Fatal`: the process is gone. */
  datatype Outcome<+T> = Ok(value: T) | Err(error: Failure) | Crash {
    predicate IsFailure() {
      !Ok?
    }

    function PropagateFailure<U>(): Outcome<U>
      requires IsFailure()
    {
      if Err? then Err(error) else Crash
    }

    function Extract(): T
      requires Ok?
    {
      value
    }
  }

  /** One constructor per error return of the modelled code. */
  datatype Failure =
    | UnsupportedType
    | NotAnIntArray
    | NotACharArray
    | WrongCharSize
    | ShortRead
    | UnknownWidth
    | NotUint64
    | NotUint32
    | RingValueNotAStruct
    | HashKeyNotAStruct
    | UnsupportedMapType
    | FilterSyntax
    | UnknownMap
    | UnknownLabel

  /** Run one more step after those already run, unless one of them failed. */
  function AndThen<T>(done: Outcome<seq<T>>, next: Outcome<T>): (r: Outcome<seq<T>>)
    ensures r.Ok? <==> done.Ok? && next.Ok?
    ensures !done.Ok? ==> r == done
  {
    var vs :- done;
    var v :- next;
    Ok(vs + [v])
  }

  /** The results of all steps, or the first failure. */
  function InSequence<T>(rs: seq<Outcome<T>>): (r: Outcome<seq<T>>)
    ensures r.Ok? ==> |r.value| == |rs|
  {
    if |rs| == 0 then Ok([]) else AndThen(InSequence(rs[..|rs| - 1]), rs[|rs| - 1])
  }

  lemma {:induction false} InSequenceSucceeds<T>(rs: seq<Outcome<T>>)
    ensures InSequence(rs).Ok? <==> forall i :: 0 <= i < |rs| ==> rs[i].Ok?
    ensures InSequence(rs).Ok? ==> forall i :: 0 <= i < |rs| ==> rs[i] == Ok(InSequence(rs).value[i])
  {
    if |rs| > 0 {
      InSequenceSucceeds(rs[..|rs| - 1]);
    }
  }

  /** Replacing steps that crash cannot change the result unless it was a crash. */
  lemma {:induction false} InSequenceAgrees<T>(rs: seq<Outcome<T>>, others: seq<Outcome<T>>)
    requires |rs| == |others| && !InSequence(rs).Crash?
    requires forall i :: 0 <= i < |rs| && !rs[i].Crash? ==> others[i] == rs[i]
    ensures InSequence(others) == InSequence(rs)
  {
    if |rs| > 0 {
      InSequenceAgrees(rs[..|rs| - 1], others[..|rs| - 1]);
    }
  }

  /** Once a prefix has failed, the steps after it do not matter. */
  lemma {:induction false} FailedPrefixDecides<T>(rs: seq<Outcome<T>>, i: nat)
    requires i <= |rs| && !InSequence(rs[..i]).Ok?
    ensures InSequence(rs) == InSequence(rs[..i])
  {
    if i < |rs| {
      var init := rs[..|rs| - 1];
      assert init[..i] == rs[..i];
      FailedPrefixDecides(init, i);
    } else {
      assert rs[..i] == rs;
    }
  }

  /** Step `j` is the first to fail. */
  ghost predicate FirstFailure<T>(rs: seq<Outcome<T>>, j: nat) {
    j < |rs| && !rs[j].Ok? && forall i :: 0 <= i < j ==> rs[i].Ok?
  }

  /** A failed sequence fails as its first failing step does. */
  lemma {:induction false} FirstFailureDecides<T>(rs: seq<Outcome<T>>) returns (j: nat)
    requires !InSequence(rs).Ok?
    ensures FirstFailure(rs, j) && InSequence(rs) == rs[j].PropagateFailure()
  {
    var init := rs[..|rs| - 1];
    if InSequence(init).Ok? {
      InSequenceSucceeds(init);
      j := |rs| - 1;
      assert forall i :: 0 <= i < j ==> rs[i] == init[i];
    } else {
      j := FirstFailureDecides(init);
    }
  }

  datatype Option<+T> = None | Some(value: T)
}
