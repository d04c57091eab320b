/** Failure-compatible wrappers shared by the model.
    `None` of an `Option<real>` stands for a floating-point NaN. */
module Wrappers {

  datatype Option<+T> = None | Some(value: T)

  /** A computation that either yields a value or raises the given exception. */
  datatype Result<+R, +E> = Ok(value: R) | Err(error: E) {
    predicate IsFailure() {
      Err?
    }

    function PropagateFailure<U>(): Result<U, E>
      requires Err?
    {
      Err(error)
    }

    function Extract(): R
      requires Ok?
    {
      value
    }
  }

  /** The values of a sequence of computations run in order, or the
      exception of the first that raises. */
  function Collect<R, E>(rs: seq<Result<R, E>>): Result<seq<R>, E> {
    if rs == [] then Ok([])
    else
      var prev :- Collect(rs[..|rs| - 1]);
      var last :- rs[|rs| - 1];
      Ok(prev + [last])
  }

  /** Collecting succeeds exactly when every computation does, with their
      values in order; otherwise it raises what the first failing one
      raises. */
  lemma {:induction false} CollectSpec<R, E>(rs: seq<Result<R, E>>)
    ensures Collect(rs).Ok? <==> forall i :: 0 <= i < |rs| ==> rs[i].Ok?
    ensures Collect(rs).Ok? ==> |Collect(rs).value| == |rs|
    ensures Collect(rs).Ok? ==> forall i :: 0 <= i < |rs| ==> Collect(rs).value[i] == rs[i].value
    ensures Collect(rs).Err? ==>
      exists i :: (0 <= i < |rs| && rs[i].Err?
        && (forall j :: 0 <= j < i ==> rs[j].Ok?) && Collect(rs).error == rs[i].error)
  {
    if rs != [] {
      var init := rs[..|rs| - 1];
      CollectSpec(init);
      assert forall i :: 0 <= i < |init| ==> init[i] == rs[i];
      if Collect(init).Err? {
        var i :| 0 <= i < |init| && init[i].Err?
          && (forall j :: 0 <= j < i ==> init[j].Ok?) && Collect(init).error == init[i].error;
        assert rs[i].Err?;
      }
    }
  }

  /** One more computation: its value is appended, or its exception
      becomes the result. */
  lemma CollectStep<R, E>(rs: seq<Result<R, E>>, i: nat)
    requires i < |rs| && Collect(rs[..i]).Ok?
    ensures rs[i].Ok? ==> Collect(rs[..i + 1]) == Ok(Collect(rs[..i]).value + [rs[i].value])
    ensures rs[i].Err? ==> Collect(rs[..i + 1]) == Err(rs[i].error)
  {
    assert rs[..i + 1][..i] == rs[..i];
  }

  /** A failure stops the collection: extending a failed prefix leaves its
      exception unchanged. */
  lemma {:induction false} CollectStops<R, E>(rs: seq<Result<R, E>>, n: nat)
    requires n <= |rs| && Collect(rs[..n]).Err?
    ensures Collect(rs) == Collect(rs[..n])
    decreases |rs|
  {
    if n < |rs| {
      assert rs[..|rs| - 1][..n] == rs[..n];
      CollectStops(rs[..|rs| - 1], n);
    } else {
      assert rs[..n] == rs;
    }
  }
}
