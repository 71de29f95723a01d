/** One-time payments: one history record per row, plus one for the tips, written concurrently behind a barrier. */
module OneTime {
  import opened Common
  import opened Bucket
  import opened Barrier

  /** A record of the payment history. */
  datatype Payment = Payment(organisation: Id, amount: int)

  /** The writes addOneTimePaymentToFirebase issues: the tips, if any, and then every row whatever its amount. */
  function Requests(rows: seq<Row>, tips: int): seq<Payment> {
    (if tips > 0 then [Payment("tips", tips)] else [])
    + seq(|rows|, i requires 0 <= i < |rows| => Payment(rows[i].organisation, rows[i].amount))
  }

  datatype Model = Model(requests: seq<Payment>, issued: nat, open: set<nat>, done: set<nat>, failed: set<nat>,
                         barrier: Barrier, history: multiset<Payment>)

  datatype Event = Issue | Answer(request: nat, success: bool)

  function Start(requests: seq<Payment>, history: multiset<Payment>): Model {
    Model(requests, 0, {}, {}, {}, Begin(|requests|), history)
  }

  predicate Enabled(m: Model, e: Event) {
    match e
    case Issue => m.issued < |m.requests|
    case Answer(i, _) => i in m.open && i < |m.requests|
  }

  function Next(m: Model, e: Event): Model
    requires Enabled(m, e)
  {
    match e
    case Issue => m.(issued := m.issued + 1, open := m.open + {m.issued})
    case Answer(i, success) =>
      var m' := m.(open := m.open - {i}, barrier := Report(m.barrier, success));
      if success then m'.(done := m.done + {i}, history := m.history + multiset{m.requests[i]})
      else m'.(failed := m.failed + {i})
  }

  function After(requests: seq<Payment>, history: multiset<Payment>, events: seq<Event>): Option<Model>
    decreases |events|
  {
    if events == [] then Some(Start(requests, history))
    else
      var before := After(requests, history, events[..|events| - 1]);
      var e := events[|events| - 1];
      if before.Some? && Enabled(before.value, e) then Some(Next(before.value, e)) else None
  }

  /** The requests with index in `s`, below `n`. */
  function Picked(requests: seq<Payment>, s: set<nat>, n: nat): multiset<Payment>
    requires n <= |requests|
  {
    if n == 0 then multiset{}
    else Picked(requests, s, n - 1) + if n - 1 in s then multiset{requests[n - 1]} else multiset{}
  }

  /** Request `i` if it is below `n`. */
  function Only(requests: seq<Payment>, i: nat, n: nat): multiset<Payment>
    requires n <= |requests|
  {
    if i < n then multiset{requests[i]} else multiset{}
  }

  /** The last request of the first `n`, if it is in `s`. */
  function LastPicked(requests: seq<Payment>, s: set<nat>, n: nat): multiset<Payment>
    requires 0 < n <= |requests|
  {
    if n - 1 in s then multiset{requests[n - 1]} else multiset{}
  }

  lemma PickedStep(requests: seq<Payment>, s: set<nat>, n: nat)
    requires 0 < n <= |requests|
    ensures Picked(requests, s, n) == Picked(requests, s, n - 1) + LastPicked(requests, s, n)
  {}

  lemma LastAdd(requests: seq<Payment>, s: set<nat>, i: nat, n: nat)
    requires 0 < n <= |requests| && i !in s
    ensures Only(requests, i, n - 1) + LastPicked(requests, s + {i}, n) ==
            LastPicked(requests, s, n) + Only(requests, i, n)
  {}

  lemma {:induction false} PickedAdd(requests: seq<Payment>, s: set<nat>, i: nat, n: nat)
    requires n <= |requests| && i !in s
    ensures Picked(requests, s + {i}, n) == Picked(requests, s, n) + Only(requests, i, n)
    decreases n
  {
    hide Picked, LastPicked, Only;
    if n == 0 {
      NonePicked(requests, s + {i});
      NonePicked(requests, s);
      assert Only(requests, i, 0) == multiset{} by { NoneOnly(requests, i); }
    } else {
      PickedAdd(requests, s, i, n - 1);
      PickedStep(requests, s + {i}, n);
      PickedStep(requests, s, n);
      LastAdd(requests, s, i, n);
      SumAssociates(Picked(requests, s, n - 1), Only(requests, i, n - 1), LastPicked(requests, s + {i}, n));
      SumAssociates(Picked(requests, s, n - 1), LastPicked(requests, s, n), Only(requests, i, n));
    }
  }

  lemma NonePicked(requests: seq<Payment>, s: set<nat>)
    ensures Picked(requests, s, 0) == multiset{}
  {}

  lemma NoneOnly(requests: seq<Payment>, i: nat)
    ensures Only(requests, i, 0) == multiset{}
  {}

  lemma SumAssociates<T>(a: multiset<T>, b: multiset<T>, c: multiset<T>)
    ensures (a + b) + c == a + (b + c)
  {}

  lemma {:induction false} PickedAll(requests: seq<Payment>, s: set<nat>, n: nat)
    requires n <= |requests| && forall i: nat | i < n :: i in s
    ensures Picked(requests, s, n) == multiset(requests[..n])
    decreases n
  {
    if n > 0 {
      PickedAll(requests, s, n - 1);
      assert requests[..n] == requests[..n - 1] + [requests[n - 1]];
    } else {
      assert requests[..0] == [];
    }
  }

  ghost predicate Partitioned(m: Model) {
    && m.issued <= |m.requests|
    && (forall i :: i in m.open || i in m.done || i in m.failed <==> 0 <= i < m.issued)
    && m.open !! m.done && m.open !! m.failed && m.done !! m.failed
  }

  ghost predicate Tallied(m: Model) {
    && m.barrier.total == |m.requests|
    && m.barrier.count == |m.done| + |m.failed|
    && m.barrier.count + |m.open| == m.issued <= |m.requests|
    && m.barrier.isError == (m.failed != {})
    && m.barrier.fired == if m.barrier.count == |m.requests| && m.requests != [] then [m.failed == {}] else []
  }

  ghost predicate Recorded(m: Model, before: multiset<Payment>) {
    m.history == before + Picked(m.requests, m.done, |m.requests|)
  }

  lemma NextPartitioned(m: Model, e: Event)
    requires Partitioned(m) && Enabled(m, e)
    ensures Partitioned(Next(m, e))
  {}

  lemma IssueTallied(m: Model)
    requires Partitioned(m) && Tallied(m) && Enabled(m, Issue)
    ensures Tallied(Next(m, Issue))
  {
    assert m.issued !in m.open;
    assert |Next(m, Issue).open| == |m.open| + 1;
  }

  lemma AnswerTallied(m: Model, i: nat, success: bool)
    requires Partitioned(m) && Tallied(m) && Enabled(m, Answer(i, success))
    ensures Tallied(Next(m, Answer(i, success)))
  {
    hide Report;
    var m' := Next(m, Answer(i, success));
    assert |m'.open| == |m.open| - 1;
    assert i !in m.done && i !in m.failed;
    if success { assert |m'.done| == |m.done| + 1; } else { assert |m'.failed| == |m.failed| + 1; }
    ReportIs(m.barrier, success);
  }

  lemma ReportIs(b: Barrier, success: bool)
    ensures var r := Report(b, success);
            && r.total == b.total && r.count == b.count + 1 && r.isError == (b.isError || !success)
            && r.fired == if r.count == b.total then b.fired + [!r.isError] else b.fired
  {}

  lemma NextTallied(m: Model, e: Event)
    requires Partitioned(m) && Tallied(m) && Enabled(m, e)
    ensures Tallied(Next(m, e))
  {
    hide Partitioned, Tallied, Enabled, Next;
    match e
    case Issue => IssueTallied(m);
    case Answer(i, success) => AnswerTallied(m, i, success);
  }

  lemma NextRecorded(m: Model, e: Event, before: multiset<Payment>)
    requires Partitioned(m) && Recorded(m, before) && Enabled(m, e)
    ensures Recorded(Next(m, e), before)
  {
    hide Picked;
    if e.Answer? && e.success {
      PickedAdd(m.requests, m.done, e.request, |m.requests|);
      SumAssociates(before, Picked(m.requests, m.done, |m.requests|), multiset{m.requests[e.request]});
    }
  }

  lemma {:induction false} RunKeeps(requests: seq<Payment>, before: multiset<Payment>, events: seq<Event>)
    requires After(requests, before, events).Some?
    ensures var m := After(requests, before, events).value;
            m.requests == requests && Partitioned(m) && Tallied(m) && Recorded(m, before)
    decreases |events|
  {
    hide Partitioned, Tallied, Recorded;
    if events == [] {
      StartHolds(requests, before);
    } else {
      var n := |events| - 1;
      RunKeeps(requests, before, events[..n]);
      var m := After(requests, before, events[..n]).value;
      NextPartitioned(m, events[n]);
      NextTallied(m, events[n]);
      NextRecorded(m, events[n], before);
    }
  }

  lemma {:induction false} PickedNone(requests: seq<Payment>, n: nat)
    requires n <= |requests|
    ensures Picked(requests, {}, n) == multiset{}
    decreases n
  {
    if n > 0 { PickedNone(requests, n - 1); }
  }

  lemma StartHolds(requests: seq<Payment>, before: multiset<Payment>)
    ensures var m := Start(requests, before); Partitioned(m) && Tallied(m) && Recorded(m, before)
  {
    PickedNone(requests, |requests|);
  }

  /** How many records `p` a confirmed table stands for: one per row with that organisation and amount, and one for the
      tips when there are any. */
  function Asked(rows: seq<Row>, tips: int, p: Payment): nat {
    if rows == [] then (if tips > 0 && p.organisation == "tips" && p.amount == tips then 1 else 0)
    else
      var last := rows[|rows| - 1];
      Asked(rows[..|rows| - 1], tips, p)
      + if last.organisation == p.organisation && last.amount == p.amount then 1 else 0
  }

  lemma {:induction false} RequestsAsked(rows: seq<Row>, tips: int, p: Payment)
    ensures multiset(Requests(rows, tips))[p] == Asked(rows, tips, p)
    decreases |rows|
  {
    if rows == [] {
      assert Requests(rows, tips) == if tips > 0 then [Payment("tips", tips)] else [];
    } else {
      var n := |rows| - 1;
      RequestsAsked(rows[..n], tips, p);
      assert Requests(rows, tips) == Requests(rows[..n], tips) + [Payment(rows[n].organisation, rows[n].amount)];
    }
  }

  /** In every order of answers the handler fires once, when the last request has answered, with success exactly when
      none failed; without rows and tips it never fires. When none failed, the history gained exactly one record per
      row, whatever its amount, and one for the tips if there are any. */
  lemma PaymentsRecorded(rows: seq<Row>, tips: int, before: multiset<Payment>, events: seq<Event>)
    requires After(Requests(rows, tips), before, events).Some?
    ensures var m := After(Requests(rows, tips), before, events).value;
            var finished := m.issued == |m.requests| && m.open == {};
            && m.barrier.fired == (if finished && (rows != [] || tips > 0) then [m.failed == {}] else [])
            && (finished && m.failed == {} ==> forall p :: m.history[p] == before[p] + Asked(rows, tips, p))
  {
    hide After, Picked;
    RunKeeps(Requests(rows, tips), before, events);
    var m := After(Requests(rows, tips), before, events).value;
    if m.barrier.count == |m.requests| { assert |m.open| == 0; }
    if m.issued == |m.requests| && m.open == {} && m.failed == {} {
      PickedAll(m.requests, m.done, |m.requests|);
      assert m.requests[..|m.requests|] == m.requests;
      forall p ensures m.history[p] == before[p] + Asked(rows, tips, p) { RequestsAsked(rows, tips, p); }
    }
  }
}
