/** The request-coalescing cache of retrieveBINRanges: a serial retrieval queue, requests in flight on the network,
    and the main queue that runs the completions. Any interleaving of calls, queue turns and responses is a run. */
module BinCache {
  import opened Luhn
  import opened BinRange
  import opened BinTable
  import opened Common

  /** kPrefixLengthForMetadataRequest. */
  const PREFIX_LENGTH: nat := 6

  /** A block on the retrieval queue. */
  datatype Job = Retrieve(prefix: Digits, id: nat) | Response(key: Digits, ranges: Option<seq<Range>>)

  /** A block on the main queue. */
  datatype MainJob = Local(prefix: Digits, id: nat) | Deliver(ids: seq<nat>, ranges: Option<seq<Range>>)

  /** One run of a completion. */
  datatype Outcome = Outcome(id: nat, ranges: Option<seq<Range>>)

  /** sPendingRequests, sRetrievedRanges, STPBINRangeAllRanges, the two queues and the requests the network has not
      answered; and, for the specification, the calls made, the completions run and the order of retrieval. */
  datatype Model = Model(pending: map<Digits, seq<nat>>, retrieved: map<Digits, seq<Range>>, allRanges: seq<Range>,
                         jobs: seq<Job>, network: seq<Digits>, main: seq<MainJob>,
                         called: set<nat>, log: seq<Outcome>, order: seq<Digits>)

  datatype Event = Call(prefix: Digits, id: nat)
                 | RunJob(specific: Range)
                 | Answer(index: nat, ranges: Option<seq<Range>>)
                 | RunMain

  /** stp_safeSubstring(to:). */
  function Cut(ds: Digits, n: nat): Digits {
    if n <= |ds| then ds[..n] else ds
  }

  function Key(prefix: Digits): Digits { Cut(prefix, PREFIX_LENGTH) }

  function Initial(): Model {
    Model(map[], map[], BuiltIn(), [], [], [], {}, [], [])
  }

  /** The event can happen. `specific` is the range mostSpecificBINRange returns for the first five digits, which
      decides both isInvalidBINPrefix and isVariableLengthBINPrefix; each answer belongs to a request in flight. */
  predicate Enabled(m: Model, e: Event) {
    match e
    case Call(_, id) => id !in m.called
    case RunJob(specific) =>
      m.jobs != [] &&
      (m.jobs[0].Retrieve? ==> MostSpecific(m.allRanges, Cut(m.jobs[0].prefix, PREFIX_LENGTH - 1), specific))
    case Answer(index, _) => index < |m.network|
    case RunMain => m.main != []
  }

  /** The ranges on the device already answer the call. */
  predicate AnsweredLocally(m: Model, prefix: Digits, specific: Range) {
    || Key(prefix) in m.retrieved
    || |Key(prefix)| < PREFIX_LENGTH
    || specific.brand == Unknown
    || specific.brand != UnionPay
  }

  function Runs(ids: seq<nat>, ranges: Option<seq<Range>>): seq<Outcome> {
    seq(|ids|, i requires 0 <= i < |ids| => Outcome(ids[i], ranges))
  }

  function RunRetrieve(m: Model, prefix: Digits, id: nat, specific: Range): Model {
    var key := Key(prefix);
    if AnsweredLocally(m, prefix, specific) then m.(main := m.main + [Local(prefix, id)])
    else if key in m.pending then m.(pending := m.pending[key := m.pending[key] + [id]])
    else m.(pending := m.pending[key := [id]], network := m.network + [key])
  }

  function RunResponse(m: Model, key: Digits, ranges: Option<seq<Range>>): Model {
    var blocks := if key in m.pending then m.pending[key] else [];
    var m' := m.(pending := m.pending - {key}, main := m.main + [Deliver(blocks, ranges)]);
    if ranges.None? then m'
    else m'.(retrieved := m.retrieved[key := ranges.value], allRanges := m.allRanges + ranges.value,
             order := m.order + [key])
  }

  function Next(m: Model, e: Event): Model
    requires Enabled(m, e)
  {
    match e
    case Call(prefix, id) => m.(jobs := m.jobs + [Retrieve(prefix, id)], called := m.called + {id})
    case RunJob(specific) =>
      var rest := m.(jobs := m.jobs[1..]);
      (match m.jobs[0]
       case Retrieve(prefix, id) => RunRetrieve(rest, prefix, id, specific)
       case Response(key, ranges) => RunResponse(rest, key, ranges))
    case Answer(i, ranges) =>
      m.(network := m.network[..i] + m.network[i + 1..], jobs := m.jobs + [Response(m.network[i], ranges)])
    case RunMain =>
      var rest := m.(main := m.main[1..]);
      (match m.main[0]
       case Local(prefix, id) => rest.(log := m.log + [Outcome(id, Some(Matching(m.allRanges, prefix)))])
       case Deliver(ids, ranges) => rest.(log := m.log + Runs(ids, ranges)))
  }

  /** The state after a sequence of events, if each of them could happen. */
  function After(events: seq<Event>): Option<Model>
    decreases |events|
  {
    if events == [] then Some(Initial())
    else
      var before := After(events[..|events| - 1]);
      var e := events[|events| - 1];
      if before.Some? && Enabled(before.value, e) then Some(Next(before.value, e)) else None
  }

  // ---------------------------------------------------------------- where things are

  /** How often `x` occurs. */
  function Occurrences<T(==)>(xs: seq<T>, x: T): nat {
    if xs == [] then 0 else (if xs[0] == x then 1 else 0) + Occurrences(xs[1..], x)
  }

  /** Responses to `key` waiting on the retrieval queue. */
  function Responses(jobs: seq<Job>, key: Digits): nat {
    if jobs == [] then 0 else (if jobs[0].Response? && jobs[0].key == key then 1 else 0) + Responses(jobs[1..], key)
  }

  /** Requests for `key` that were sent and whose response block has not run. */
  function InFlight(m: Model, key: Digits): nat {
    Occurrences(m.network, key) + Responses(m.jobs, key)
  }

  /** Calls with this completion waiting on the retrieval queue. */
  function Queued(jobs: seq<Job>, id: nat): nat {
    if jobs == [] then 0 else (if jobs[0].Retrieve? && jobs[0].id == id then 1 else 0) + Queued(jobs[1..], id)
  }

  /** Runs of this completion that one block of the main queue will make. */
  function RunsIn(j: MainJob, id: nat): nat {
    match j
    case Local(_, i) => if i == id then 1 else 0
    case Deliver(ids, _) => Occurrences(ids, id)
  }

  function OnMain(main: seq<MainJob>, id: nat): nat {
    if main == [] then 0 else RunsIn(main[0], id) + OnMain(main[1..], id)
  }

  /** Runs of this completion so far. */
  function Completed(log: seq<Outcome>, id: nat): nat {
    if log == [] then 0 else (if log[0].id == id then 1 else 0) + Completed(log[1..], id)
  }

  /** Times this completion waits under the given pending keys. */
  ghost function Waiting(pending: map<Digits, seq<nat>>, keys: set<Digits>, id: nat): nat
    requires keys <= pending.Keys
    decreases |keys|
  {
    if keys == {} then 0
    else var k :| k in keys; Occurrences(pending[k], id) + Waiting(pending, keys - {k}, id)
  }

  lemma {:induction false} WaitingAt(pending: map<Digits, seq<nat>>, keys: set<Digits>, id: nat, k: Digits)
    requires keys <= pending.Keys && k in keys
    ensures Waiting(pending, keys, id) == Occurrences(pending[k], id) + Waiting(pending, keys - {k}, id)
    decreases |keys|
  {
    hide Occurrences;
    var j :| j in keys && Waiting(pending, keys, id) == Occurrences(pending[j], id) + Waiting(pending, keys - {j}, id);
    if j != k {
      WaitingAt(pending, keys - {j}, id, k);
      WaitingAt(pending, keys - {k}, id, j);
      assert keys - {j} - {k} == keys - {k} - {j};
    }
  }

  lemma {:induction false} WaitingAgree(p: map<Digits, seq<nat>>, q: map<Digits, seq<nat>>, keys: set<Digits>, id: nat)
    requires keys <= p.Keys && keys <= q.Keys && forall k | k in keys :: p[k] == q[k]
    ensures Waiting(p, keys, id) == Waiting(q, keys, id)
    decreases |keys|
  {
    hide Occurrences;
    if keys != {} {
      var j :| j in keys && Waiting(p, keys, id) == Occurrences(p[j], id) + Waiting(p, keys - {j}, id);
      WaitingAt(q, keys, id, j);
      WaitingAgree(p, q, keys - {j}, id);
    }
  }

  /** All the places a completion can be: waiting on the retrieval queue, waiting under a key, waiting on the main
      queue, or run. */
  ghost function Places(m: Model, id: nat): nat {
    Queued(m.jobs, id) + Waiting(m.pending, m.pending.Keys, id) + OnMain(m.main, id) + Completed(m.log, id)
  }

  function RangesOf(order: seq<Digits>, retrieved: map<Digits, seq<Range>>): seq<Range>
    requires forall k | k in order :: k in retrieved
  {
    if order == [] then []
    else RangesOf(order[..|order| - 1], retrieved) + retrieved[order[|order| - 1]]
  }

  /** A key is in flight exactly once while it is pending, and otherwise not. */
  ghost predicate FlightInv(m: Model) {
    forall key :: InFlight(m, key) == if key in m.pending then 1 else 0
  }

  /** The range list is the built-in table and the ranges of each retrieved key once. */
  ghost predicate RangesInv(m: Model) {
    && m.pending.Keys !! m.retrieved.Keys
    && Distinct(m.order) && (forall k :: k in m.order <==> k in m.retrieved)
    && m.allRanges == BuiltIn() + RangesOf(m.order, m.retrieved)
  }

  /** Every completion handed in is in exactly one place. */
  ghost predicate PlacesInv(m: Model) {
    forall id :: Places(m, id) == if id in m.called then 1 else 0
  }

  ghost predicate Inv(m: Model) {
    FlightInv(m) && RangesInv(m) && PlacesInv(m)
  }

  // ---------------------------------------------------------------- the counts under each step

  lemma {:induction false} OccurrencesSplit<T>(a: seq<T>, b: seq<T>, x: T)
    ensures Occurrences(a + b, x) == Occurrences(a, x) + Occurrences(b, x)
    decreases |a|
  {
    if a == [] {
      assert a + b == b;
    } else {
      assert (a + b)[1..] == a[1..] + b;
      OccurrencesSplit(a[1..], b, x);
    }
  }

  lemma OccursOnce<T>(y: T, x: T)
    ensures Occurrences([y], x) == if y == x then 1 else 0
  {
    assert [y][1..] == [];
  }

  lemma {:induction false} JobsAppend(jobs: seq<Job>, j: Job, key: Digits, id: nat)
    ensures Responses(jobs + [j], key) == Responses(jobs, key) + if j.Response? && j.key == key then 1 else 0
    ensures Queued(jobs + [j], id) == Queued(jobs, id) + if j.Retrieve? && j.id == id then 1 else 0
    decreases |jobs|
  {
    if jobs == [] {
      assert jobs + [j] == [j] && [j][1..] == [];
    } else {
      assert (jobs + [j])[1..] == jobs[1..] + [j];
      JobsAppend(jobs[1..], j, key, id);
    }
  }

  lemma {:induction false} MainAppend(main: seq<MainJob>, j: MainJob, id: nat)
    ensures OnMain(main + [j], id) == OnMain(main, id) + RunsIn(j, id)
    decreases |main|
  {
    hide RunsIn;
    if main == [] {
      assert main + [j] == [j] && [j][1..] == [];
    } else {
      assert (main + [j])[1..] == main[1..] + [j];
      MainAppend(main[1..], j, id);
    }
  }

  lemma {:induction false} LogAppend(log: seq<Outcome>, more: seq<Outcome>, id: nat)
    ensures Completed(log + more, id) == Completed(log, id) + Completed(more, id)
    decreases |log|
  {
    if log == [] {
      assert log + more == more;
    } else {
      assert (log + more)[1..] == log[1..] + more;
      LogAppend(log[1..], more, id);
    }
  }

  lemma {:induction false} RunsCompleted(ids: seq<nat>, ranges: Option<seq<Range>>, id: nat)
    ensures Completed(Runs(ids, ranges), id) == Occurrences(ids, id)
    decreases |ids|
  {
    if ids != [] {
      assert Runs(ids, ranges)[1..] == Runs(ids[1..], ranges);
      RunsCompleted(ids[1..], ranges, id);
    }
  }

  lemma {:induction false} RangesKept(order: seq<Digits>, a: map<Digits, seq<Range>>, b: map<Digits, seq<Range>>)
    requires forall k | k in order :: k in a && k in b && a[k] == b[k]
    ensures RangesOf(order, a) == RangesOf(order, b)
    decreases |order|
  {
    if order != [] { RangesKept(order[..|order| - 1], a, b); }
  }

  lemma CallKeeps(m: Model, prefix: Digits, id: nat)
    requires Inv(m) && Enabled(m, Call(prefix, id))
    ensures Inv(Next(m, Call(prefix, id)))
  {
    hide BuiltIn, RangesOf, Waiting, OnMain, Completed, Occurrences;
    var m' := Next(m, Call(prefix, id));
    var j := Retrieve(prefix, id);
    forall key ensures InFlight(m', key) == InFlight(m, key) { JobsAppend(m.jobs, j, key, id); }
    forall i ensures Places(m', i) == if i in m'.called then 1 else 0 {
      JobsAppend(m.jobs, j, [], i);
      assert Places(m, i) == if i in m.called then 1 else 0;
    }
  }

  lemma AnswerKeeps(m: Model, n: nat, ranges: Option<seq<Range>>)
    requires Inv(m) && Enabled(m, Answer(n, ranges))
    ensures Inv(Next(m, Answer(n, ranges)))
  {
    hide BuiltIn, RangesOf, Waiting, OnMain, Completed, Occurrences;
    var m' := Next(m, Answer(n, ranges));
    var k := m.network[n];
    var j := Response(k, ranges);
    forall key ensures InFlight(m', key) == InFlight(m, key) {
      JobsAppend(m.jobs, j, key, 0);
      assert m.network == (m.network[..n] + [k]) + m.network[n + 1..];
      OccurrencesSplit(m.network[..n] + [k], m.network[n + 1..], key);
      OccurrencesSplit(m.network[..n], [k], key);
      OccurrencesSplit(m.network[..n], m.network[n + 1..], key);
      OccursOnce(k, key);
    }
    forall i ensures Places(m', i) == Places(m, i) { JobsAppend(m.jobs, j, [], i); }
  }

  lemma MainKeeps(m: Model)
    requires Inv(m) && Enabled(m, RunMain)
    ensures Inv(Next(m, RunMain))
  {
    hide BuiltIn, RangesOf, Waiting, Matching, Occurrences, Queued;
    var m' := Next(m, RunMain);
    assert forall key :: InFlight(m', key) == InFlight(m, key);
    forall id ensures Places(m', id) == Places(m, id) {
      match m.main[0]
      case Local(prefix, i) =>
        var o := Outcome(i, Some(Matching(m.allRanges, prefix)));
        LogAppend(m.log, [o], id);
        assert [o][1..] == [];
      case Deliver(ids, ranges) =>
        LogAppend(m.log, Runs(ids, ranges), id);
        RunsCompleted(ids, ranges, id);
    }
  }

  /** A completion that joins a key, new or pending. */
  lemma WaitingJoin(pending: map<Digits, seq<nat>>, key: Digits, joined: nat, id: nat)
    ensures var p := pending[key := (if key in pending then pending[key] else []) + [joined]];
            Waiting(p, p.Keys, id) == Waiting(pending, pending.Keys, id) + if joined == id then 1 else 0
  {
    hide Occurrences, Waiting;
    var before := if key in pending then pending[key] else [];
    var p := pending[key := before + [joined]];
    var others := pending.Keys - {key};
    assert p.Keys - {key} == others;
    WaitingAt(p, p.Keys, id, key);
    WaitingAgree(p, pending, others, id);
    OccurrencesSplit(before, [joined], id);
    OccursOnce(joined, id);
    NoOccurrences(id);
    if key in pending { WaitingAt(pending, pending.Keys, id, key); } else { assert others == pending.Keys; }
  }

  lemma NoOccurrences<T>(x: T)
    ensures Occurrences([], x) == 0
  {}

  lemma RetrieveKeeps(m: Model, specific: Range)
    requires Inv(m) && Enabled(m, RunJob(specific)) && m.jobs[0].Retrieve?
    ensures Inv(Next(m, RunJob(specific)))
  {
    hide BuiltIn, RangesOf, Waiting, MostSpecific, OnMain, Completed, Occurrences;
    var prefix, id := m.jobs[0].prefix, m.jobs[0].id;
    var key := Key(prefix);
    var m' := Next(m, RunJob(specific));
    if AnsweredLocally(m, prefix, specific) {
      assert forall k :: InFlight(m', k) == InFlight(m, k);
      forall i ensures Places(m', i) == Places(m, i) { MainAppend(m.main, Local(prefix, id), i); }
    } else {
      forall i ensures Places(m', i) == Places(m, i) {
        WaitingJoin(m.pending, key, id, i);
        if key !in m.pending { assert [] + [id] == [id]; }
      }
      forall k ensures InFlight(m', k) == if k in m'.pending then 1 else 0 {
        assert InFlight(m, k) == if k in m.pending then 1 else 0;
        OccurrencesSplit(m.network, [key], k);
        OccursOnce(key, k);
      }
    }
  }

  lemma ResponseIsPending(m: Model)
    requires FlightInv(m) && m.jobs != [] && m.jobs[0].Response?
    ensures m.jobs[0].key in m.pending
  {
    assert InFlight(m, m.jobs[0].key) >= 1;
  }

  lemma ResponseFlight(m: Model, specific: Range)
    requires Inv(m) && Enabled(m, RunJob(specific)) && m.jobs[0].Response?
    ensures FlightInv(Next(m, RunJob(specific))) && PlacesInv(Next(m, RunJob(specific)))
  {
    hide BuiltIn, RangesOf, Waiting, OnMain, Completed, Occurrences, RangesInv;
    var key, ranges := m.jobs[0].key, m.jobs[0].ranges;
    var m' := Next(m, RunJob(specific));
    ResponseIsPending(m);
    assert m'.pending.Keys == m.pending.Keys - {key};
    forall k ensures InFlight(m', k) == if k in m'.pending then 1 else 0 {
      assert InFlight(m, k) == if k in m.pending then 1 else 0;
    }
    forall id ensures Places(m', id) == Places(m, id) {
      WaitingAt(m.pending, m.pending.Keys, id, key);
      WaitingAgree(m.pending, m'.pending, m.pending.Keys - {key}, id);
      MainAppend(m.main, Deliver(m.pending[key], ranges), id);
    }
  }

  lemma RangesAppend(order: seq<Digits>, retrieved: map<Digits, seq<Range>>, key: Digits, ranges: seq<Range>)
    requires key !in order && forall k | k in order :: k in retrieved
    ensures RangesOf(order + [key], retrieved[key := ranges]) == RangesOf(order, retrieved) + ranges
  {
    RangesKept(order, retrieved, retrieved[key := ranges]);
    assert (order + [key])[..|order|] == order;
  }

  lemma ResponseRanges(m: Model, specific: Range)
    requires Inv(m) && Enabled(m, RunJob(specific)) && m.jobs[0].Response?
    ensures RangesInv(Next(m, RunJob(specific)))
  {
    hide BuiltIn, PlacesInv, Distinct, RangesOf, MostSpecific;
    var key, ranges := m.jobs[0].key, m.jobs[0].ranges;
    var m' := Next(m, RunJob(specific));
    ResponseIsPending(m);
    if ranges.Some? {
      RangesAppend(m.order, m.retrieved, key, ranges.value);
      DistinctAppend(m.order, key);
    }
  }

  lemma DistinctAppend(ks: seq<Digits>, k: Digits)
    requires Distinct(ks) && k !in ks
    ensures Distinct(ks + [k])
  {}

  lemma NextKeeps(m: Model, e: Event)
    requires Inv(m) && Enabled(m, e)
    ensures Inv(Next(m, e))
  {
    hide FlightInv, RangesInv, PlacesInv, Next;
    match e
    case Call(prefix, id) => CallKeeps(m, prefix, id);
    case Answer(i, ranges) => AnswerKeeps(m, i, ranges);
    case RunMain => MainKeeps(m);
    case RunJob(specific) =>
      if m.jobs[0].Retrieve? {
        RetrieveKeeps(m, specific);
      } else {
        ResponseFlight(m, specific);
        ResponseRanges(m, specific);
      }
  }

  // ---------------------------------------------------------------- every run

  lemma InitialInv()
    ensures Inv(Initial())
  {
    hide BuiltIn;
  }

  /** Every state of every interleaving satisfies the invariant. */
  lemma {:induction false} RunKeeps(events: seq<Event>)
    requires After(events).Some?
    ensures Inv(After(events).value)
    decreases |events|
  {
    hide Inv, Next, Enabled;
    if events == [] {
      InitialInv();
    } else {
      var n := |events| - 1;
      RunKeeps(events[..n]);
      NextKeeps(After(events[..n]).value, events[n]);
    }
  }

  // ---------------------------------------------------------------- the class

  /** The static state of STPBINRange with its queues. */
  class Cache {
    var pending: map<Digits, seq<nat>>
    var retrieved: map<Digits, seq<Range>>
    var allRanges: seq<Range>
    var jobs: seq<Job>
    var network: seq<Digits>
    var main: seq<MainJob>
    ghost var called: set<nat>
    ghost var log: seq<Outcome>
    ghost var order: seq<Digits>

    ghost function State(): Model
      reads this
    {
      Model(pending, retrieved, allRanges, jobs, network, main, called, log, order)
    }

    constructor ()
      ensures State() == Initial()
    {
      pending, retrieved, allRanges := map[], map[], BuiltIn();
      jobs, network, main := [], [], [];
      called, log, order := {}, [], [];
    }

    /** retrieveBINRanges: the work is queued. */
    method RetrieveBINRanges(prefix: Digits, id: nat)
      requires Enabled(State(), Call(prefix, id))
      modifies this
      ensures State() == Next(old(State()), Call(prefix, id))
    {
      jobs := jobs + [Retrieve(prefix, id)];
      called := called + {id};
    }

    /** The network answers a request: its completion queues the response block. */
    method AnswerRequest(i: nat, ranges: Option<seq<Range>>)
      requires Enabled(State(), Answer(i, ranges))
      modifies this
      ensures State() == Next(old(State()), Answer(i, ranges))
    {
      var key := network[i];
      network := network[..i] + network[i + 1..];
      jobs := jobs + [Response(key, ranges)];
    }

    /** The next block of the retrieval queue. */
    method RunRetrievalQueue(specific: Range)
      requires Enabled(State(), RunJob(specific))
      modifies this
      ensures State() == Next(old(State()), RunJob(specific))
    {
      hide MostSpecific, AnsweredLocally, RunRetrieve, RunResponse;
      var job := jobs[0];
      jobs := jobs[1..];
      match job {
        case Retrieve(prefix, id) => RetrieveBlock(prefix, id, specific);
        case Response(key, ranges) => ResponseBlock(key, ranges);
      }
    }

    /** The block that retrieveBINRanges queues. */
    method RetrieveBlock(prefix: Digits, id: nat, specific: Range)
      modifies this
      ensures State() == RunRetrieve(old(State()), prefix, id, specific)
    {
      var key := Key(prefix);
      if key in retrieved || |key| < PREFIX_LENGTH || specific.brand == Unknown || specific.brand != UnionPay {
        main := main + [Local(prefix, id)];
      } else if key in pending {
        pending := pending[key := pending[key] + [id]];
      } else {
        pending := pending[key := [id]];
        network := network + [key];
      }
    }

    /** The block that a response queues. */
    method ResponseBlock(key: Digits, ranges: Option<seq<Range>>)
      modifies this
      ensures State() == RunResponse(old(State()), key, ranges)
    {
      var blocks := if key in pending then pending[key] else [];
      pending := pending - {key};
      if ranges.Some? {
        retrieved := retrieved[key := ranges.value];
        allRanges := allRanges + ranges.value;
        order := order + [key];
      }
      main := main + [Deliver(blocks, ranges)];
    }

    /** The next block of the main queue: completions run. */
    method RunMainQueue()
      requires Enabled(State(), RunMain)
      modifies this
      ensures State() == Next(old(State()), RunMain)
    {
      hide Matching;
      var job := main[0];
      main := main[1..];
      match job {
        case Local(prefix, id) => log := log + [Outcome(id, Some(Matching(allRanges, prefix)))];
        case Deliver(ids, ranges) => log := log + Runs(ids, ranges);
      }
    }
  }
}
