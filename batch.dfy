/** Gathering per-URL results in input order, with the first failure aborting the
    whole batch: the shape shared by `Extractor.extract_videos_from_urls` and the
    URL loop of the command-line `main`. */
module Batch {
  import opened Wrappers

  function Concat<T>(parts: seq<seq<T>>): (r: seq<T>)
  {
    if |parts| == 0 then [] else parts[0] + Concat(parts[1..])
  }

  lemma {:induction false} ConcatSnoc<T>(parts: seq<seq<T>>, last: seq<T>)
    ensures Concat(parts + [last]) == Concat(parts) + last
  {
    if |parts| > 0 {
      assert (parts + [last])[1..] == parts[1..] + [last];
      ConcatSnoc(parts[1..], last);
    }
  }

  /** Every per-item outcome succeeded. */
  predicate AllSucceed<T, E>(outcomes: seq<Result<T, E>>)
  {
    forall i :: 0 <= i < |outcomes| ==> outcomes[i].Success?
  }

  /** Item `k` is the first that failed. */
  predicate FirstFailure<T, E>(outcomes: seq<Result<T, E>>, k: int)
  {
    0 <= k < |outcomes| && outcomes[k].Failure? && AllSucceed(outcomes[..k])
  }

  function Values<T, E>(outcomes: seq<Result<T, E>>): (vs: seq<T>)
    requires AllSucceed(outcomes)
    ensures |vs| == |outcomes|
    ensures forall i :: 0 <= i < |vs| ==> outcomes[i] == Success(vs[i])
  {
    seq(|outcomes|, i requires 0 <= i < |outcomes| => outcomes[i].value)
  }

  /** The per-item outcomes gathered in order: the values concatenated when all
      succeeded, otherwise the error of the first failure. */
  function Gather<T, E>(outcomes: seq<Result<seq<T>, E>>): (r: Result<seq<T>, E>)
    ensures r.Success? <==> AllSucceed(outcomes)
    ensures r.Failure? ==> exists k :: FirstFailure(outcomes, k) && r.error == outcomes[k].error
  {
    if |outcomes| == 0 then Success([])
    else
      match outcomes[0]
      case Failure(e) =>
        assert FirstFailure(outcomes, 0);
        Failure(e)
      case Success(v) =>
        var rest := Gather(outcomes[1..]);
        match rest
        case Success(w) => Success(v + w)
        case Failure(e) =>
          FirstFailureShift(outcomes, e);
          Failure(e)
  }

  lemma FirstFailureShift<T, E>(outcomes: seq<Result<T, E>>, e: E)
    requires |outcomes| > 0 && outcomes[0].Success?
    requires exists k :: FirstFailure(outcomes[1..], k) && e == outcomes[1..][k].error
    ensures exists k :: FirstFailure(outcomes, k) && e == outcomes[k].error
  {
    var k :| FirstFailure(outcomes[1..], k) && e == outcomes[1..][k].error;
    assert outcomes[..k + 1] == [outcomes[0]] + outcomes[1..][..k];
    assert FirstFailure(outcomes, k + 1);
  }

  /** When nothing failed, the result is the per-item values concatenated in input order. */
  lemma {:induction false} GatherConcat<T, E>(outcomes: seq<Result<seq<T>, E>>)
    requires AllSucceed(outcomes)
    ensures Gather(outcomes) == Success(Concat(Values(outcomes)))
  {
    if |outcomes| > 0 {
      GatherConcat(outcomes[1..]);
      assert Values(outcomes)[1..] == Values(outcomes[1..]);
    }
  }

  /** The first failing item alone decides a failed batch: its error is returned. */
  lemma GatherFirstFailure<T, E>(outcomes: seq<Result<seq<T>, E>>, k: int)
    requires FirstFailure(outcomes, k)
    ensures Gather(outcomes) == Failure(outcomes[k].error)
  {
    var r := Gather(outcomes);
    assert !AllSucceed(outcomes);
    var k' :| FirstFailure(outcomes, k') && r.error == outcomes[k'].error;
  }
}
