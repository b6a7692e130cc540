/** Option and Result, used for optional XML attributes and for the
    exceptions that abort a conversion. */
module Wrappers {

  datatype Option<+T> = None | Some(value: T) {
    function GetOr(default: T): T {
      match this
      case Some(v) => v
      case None => default
    }
  }

  datatype Result<+R, +E> = Success(value: R) | Failure(error: E)

  /** Gathers the values of a sequence of results in order, stopping at
      the first failure. */
  function Collect<T, E>(outs: seq<Result<T, E>>): Result<seq<T>, E>
  {
    if |outs| == 0 then Success([])
    else
      match Collect(outs[..|outs| - 1])
      case Failure(err) => Failure(err)
      case Success(values) =>
        match outs[|outs| - 1]
        case Failure(err) => Failure(err)
        case Success(v) => Success(values + [v])
  }

  /** Collecting succeeds exactly when every result does, and then keeps
      every value in order; otherwise it is the first failure. */
  lemma {:induction false} CollectSpec<T, E>(outs: seq<Result<T, E>>)
    ensures Collect(outs).Success? <==> forall k :: 0 <= k < |outs| ==> outs[k].Success?
    ensures Collect(outs).Success? ==>
              && |Collect(outs).value| == |outs|
              && forall k :: 0 <= k < |outs| ==> Collect(outs).value[k] == outs[k].value
    ensures Collect(outs).Failure? ==>
              exists k :: 0 <= k < |outs| && outs[k] == Failure(Collect(outs).error)
                && forall j :: 0 <= j < k ==> outs[j].Success?
  {
    if |outs| > 0 {
      var init := outs[..|outs| - 1];
      CollectSpec(init);
      assert forall k :: 0 <= k < |init| ==> init[k] == outs[k];
      if Collect(init).Failure? {
        var k :| 0 <= k < |init| && init[k] == Failure(Collect(init).error)
                 && forall j :: 0 <= j < k ==> init[j].Success?;
        assert outs[k] == init[k];
      }
    }
  }

  /** Collecting one more result: an earlier failure stands, otherwise
      the new result fails or adds its value at the end. */
  lemma CollectAppend<T, E>(outs: seq<Result<T, E>>, x: Result<T, E>)
    ensures Collect(outs + [x]) ==
              match Collect(outs)
              case Failure(err) => Failure(err)
              case Success(values) =>
                match x
                case Failure(err) => Failure(err)
                case Success(v) => Success(values + [v])
  {
    assert (outs + [x])[..|outs|] == outs;
  }
}
