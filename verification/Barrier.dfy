/** The completion barrier the app builds from a captured counter and error flag: each write reports once, and the
    report that brings the counter to the total fires the handler. */
module Barrier {

  datatype Barrier = Barrier(total: nat, count: nat, isError: bool, fired: seq<bool>)

  function Begin(total: nat): Barrier { Barrier(total, 0, false, []) }

  /** One completion: count it, remember a failure, and fire on reaching the total. */
  function Report(b: Barrier, success: bool): Barrier {
    var count, isError := b.count + 1, b.isError || !success;
    Barrier(b.total, count, isError, if count == b.total then b.fired + [!isError] else b.fired)
  }

  function ReportAll(b: Barrier, results: seq<bool>): Barrier {
    if results == [] then b else Report(ReportAll(b, results[..|results| - 1]), results[|results| - 1])
  }

  predicate AllTrue(results: seq<bool>) {
    forall i | 0 <= i < |results| :: results[i]
  }

  /** For up to `total` reports in any order: the handler has fired exactly when all have come in, then once, and it
      was told success exactly when every report was one. With a total of zero it never fires. */
  lemma {:induction false} FiresOnce(total: nat, results: seq<bool>)
    requires |results| <= total
    ensures var b := ReportAll(Begin(total), results);
            && b.total == total && b.count == |results| && b.isError == !AllTrue(results)
            && b.fired == if |results| == total && total > 0 then [AllTrue(results)] else []
    decreases |results|
  {
    if results != [] {
      var n := |results| - 1;
      FiresOnce(total, results[..n]);
      assert AllTrue(results) <==> AllTrue(results[..n]) && results[n];
    }
  }

  /** The captured variables `queryCount` and `isError`, and the handler's firings. */
  class Counter {
    const total: nat
    var queryCount: nat
    var isError: bool
    ghost var fired: seq<bool>

    ghost function State(): Barrier
      reads this
    {
      Barrier(total, queryCount, isError, fired)
    }

    constructor (total: nat)
      ensures State() == Begin(total)
    {
      this.total := total;
      queryCount, isError, fired := 0, false, [];
    }

    /** The body of a completion block. */
    method OnCompletion(success: bool) returns (fires: bool)
      modifies this
      ensures State() == Report(old(State()), success)
      ensures fires <==> |fired| == |old(fired)| + 1
    {
      queryCount := queryCount + 1;
      if !success { isError := true; }
      fires := queryCount == total;
      if fires { fired := fired + [!isError]; }
    }
  }
}
