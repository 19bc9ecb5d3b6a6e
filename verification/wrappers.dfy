/** Option and Result for the query builder, and the Python exceptions that its
    dictionary and list lookups raise. A function that can raise returns a Result;
    `:-` propagates the first exception, as Python does. */
module Wrappers {

  datatype Option<+T> = None | Some(value: T)

  /** The exceptions the modelled code raises, with the payload Python attaches. */
  datatype Exception =
    | KeyError(key: string)             // a missing dict key
    | IndexError                        // "list index out of range"
    | ValueError(message: string)       // an illegal condition, or list.remove of a missing item
    | TypeError(message: string)        // an unknown attribute type, or indexing a str with a str
    | UnboundLocalError(name: string)   // a local read before it was assigned

  datatype Result<+T> = Ok(value: T) | Err(error: Exception) {
    predicate IsFailure() { Err? }

    function PropagateFailure<U>(): Result<U>
      requires Err?
    {
      Err(error)
    }

    function Extract(): T
      requires Ok?
    {
      value
    }
  }

  /** `xs[i]` on a Python list. */
  function Index<T>(xs: seq<T>, i: nat): (r: Result<T>)
    ensures r.Ok? <==> i < |xs|
    ensures r.Ok? ==> r.value == xs[i]
    ensures r.Err? ==> r.error == IndexError
  {
    if i < |xs| then Ok(xs[i]) else Err(IndexError)
  }

  /** `d[k]` on a Python dict. */
  function Lookup<V>(d: map<string, V>, k: string): (r: Result<V>)
    ensures r.Ok? <==> k in d
    ensures r.Ok? ==> r.value == d[k]
    ensures r.Err? ==> r.error == KeyError(k)
  {
    if k in d then Ok(d[k]) else Err(KeyError(k))
  }

  /** Runs a list of steps left to right and stops at the first exception, the way
      a Python loop that appends one result per step does. */
  function Sequence<T>(rs: seq<Result<T>>): Result<seq<T>> {
    if rs == [] then Ok([])
    else if rs[0].Err? then Err(rs[0].error)
    else
      var rest :- Sequence(rs[1..]);
      Ok([rs[0].value] + rest)
  }

  /** The run succeeds exactly when every step does, and then holds their values in order. */
  lemma {:induction false} SequenceSpec<T>(rs: seq<Result<T>>)
    ensures Sequence(rs).Ok? <==> forall i | 0 <= i < |rs| :: rs[i].Ok?
    ensures Sequence(rs).Ok? ==> |Sequence(rs).value| == |rs| && forall i | 0 <= i < |rs| :: Sequence(rs).value[i] == rs[i].value
  {
    if rs != [] && rs[0].Ok? {
      SequenceSpec(rs[1..]);
      assert forall i | 1 <= i < |rs| :: rs[i] == rs[1..][i - 1];
    }
  }

  /** The exception reported is the one of the first step that fails. */
  lemma {:induction false} SequenceFirstError<T>(rs: seq<Result<T>>, i: nat)
    requires i < |rs| && rs[i].Err?
    requires forall k | 0 <= k < i :: rs[k].Ok?
    ensures Sequence(rs) == Err(rs[i].error)
  {
    if i > 0 {
      assert forall k | 0 <= k < i - 1 :: rs[1..][k] == rs[k + 1];
      SequenceFirstError(rs[1..], i - 1);
    }
  }

  /** The run of the first `k + 1` steps, when the first `k` succeeded. */
  lemma SequencePrefixNext<T>(rs: seq<Result<T>>, k: nat, vs: seq<T>)
    requires k < |rs| && Sequence(rs[..k]) == Ok(vs)
    ensures rs[k].Ok? ==> Sequence(rs[..k + 1]) == Ok(vs + [rs[k].value])
    ensures rs[k].Err? ==> Sequence(rs) == Err(rs[k].error)
  {
    SequenceSpec(rs[..k]);
    assert forall i | 0 <= i < k :: rs[..k][i] == rs[i];
    if rs[k].Ok? {
      var p := rs[..k + 1];
      SequenceSpec(p);
      assert forall i | 0 <= i < k + 1 :: p[i] == rs[i];
      assert Sequence(p).Ok?;
      assert Sequence(p).value == vs + [rs[k].value];
    } else {
      SequenceFirstError(rs, k);
    }
  }

}
