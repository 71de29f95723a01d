/** What every run of the BIN cache keeps, what an answer brings in every continuation, and that a run without new
    calls comes to an end with each completion run. */
module CacheRuns {
  import opened Common
  import opened Luhn
  import opened BinRange
  import opened BinTable
  import opened BinCache

  // ---------------------------------------------------------------- safety

  /** In every reachable state: no key is both pending and retrieved; a pending key has exactly one request in flight
      and any other key none; and no completion has run twice. */
  lemma CacheSafety(events: seq<Event>)
    requires After(events).Some?
    ensures var m := After(events).value;
            && m.pending.Keys !! m.retrieved.Keys
            && (forall key :: InFlight(m, key) == if key in m.pending then 1 else 0)
            && (forall id :: Completed(m.log, id) <= 1)
  {
    hide BuiltIn, RangesOf, After;
    RunKeeps(events);
    var m := After(events).value;
    forall id ensures Completed(m.log, id) <= 1 { assert Places(m, id) == if id in m.called then 1 else 0; }
  }

  /** And the range list is the built-in table followed by the ranges of each retrieved key, once each. */
  lemma CacheRanges(events: seq<Event>)
    requires After(events).Some?
    ensures var m := After(events).value;
            && Distinct(m.order) && (forall k :: k in m.order <==> k in m.retrieved)
            && m.allRanges == BuiltIn() + RangesOf(m.order, m.retrieved)
  {
    hide BuiltIn, RangesOf, After;
    RunKeeps(events);
  }

  /** Once the queues are empty and every request was answered, each completion handed in has run exactly once and
      nothing is pending. */
  lemma QuiescentMeansDone(events: seq<Event>)
    requires After(events).Some?
    requires var m := After(events).value; m.jobs == [] && m.network == [] && m.main == []
    ensures var m := After(events).value;
            && (forall id :: Completed(m.log, id) == if id in m.called then 1 else 0)
            && m.pending == map[]
  {
    hide BuiltIn, RangesOf, After;
    RunKeeps(events);
    var m := After(events).value;
    forall k ensures k !in m.pending { assert InFlight(m, k) == 0; }
    assert m.pending.Keys == {};
    forall id ensures Completed(m.log, id) == if id in m.called then 1 else 0 {
      assert Places(m, id) == if id in m.called then 1 else 0;
    }
  }

  // ---------------------------------------------------------------- every continuation

  /** Turns of the main queue. */
  function Turns(events: seq<Event>): nat {
    if events == [] then 0 else Turns(events[..|events| - 1]) + if events[|events| - 1].RunMain? then 1 else 0
  }

  ghost predicate Logged(m: Model, ids: seq<nat>, ranges: Option<seq<Range>>) {
    forall i | 0 <= i < |ids| :: Outcome(ids[i], ranges) in m.log
  }

  /** Where the Deliver block `d` is when it was at position `j` of the main queue `t` turns ago. */
  ghost predicate Delivering(m: Model, d: MainJob, j: nat, t: nat)
    requires d.Deliver?
  {
    if t <= j then j - t < |m.main| && m.main[j - t] == d else Logged(m, d.ids, d.ranges)
  }

  lemma NextDelivers(m: Model, e: Event, d: MainJob, j: nat, t: nat)
    requires d.Deliver? && Enabled(m, e) && Delivering(m, d, j, t)
    ensures Delivering(Next(m, e), d, j, if e.RunMain? then t + 1 else t)
  {
    hide Next, Logged, Enabled;
    NextMoves(m, e);
    if t == j && e.RunMain? {
      DeliverRuns(m);
    } else if t > j {
      LogGrows(m, Next(m, e), d.ids, d.ranges);
    }
  }

  /** One event more. */
  lemma AfterOne(events: seq<Event>, e: Event)
    requires After(events).Some? && Enabled(After(events).value, e)
    ensures After(events + [e]) == Some(Next(After(events).value, e))
  {
    hide Next, Enabled;
    assert (events + [e])[..|events|] == events;
  }

  /** What a longer run consists of. */
  lemma AfterMore(events: seq<Event>, more: seq<Event>)
    requires After(events + more).Some? && more != []
    ensures var n, before := |more| - 1, After(events + more[..|more| - 1]);
            before.Some? && Enabled(before.value, more[n]) && After(events + more) == Some(Next(before.value, more[n]))
  {
    hide Next, Enabled;
    assert (events + more)[..|events + more| - 1] == events + more[..|more| - 1];
  }

  /** A Deliver block at position `j` of the main queue moves up with every turn, and at its own turn runs. */
  lemma {:induction false} DeliverMoves(events: seq<Event>, more: seq<Event>, j: nat)
    requires After(events).Some? && After(events + more).Some?
    requires j < |After(events).value.main| && After(events).value.main[j].Deliver?
    ensures Delivering(After(events + more).value, After(events).value.main[j], j, Turns(more))
    decreases |more|
  {
    hide Next, Enabled, Logged, After;
    if more == [] {
      assert events + more == events;
    } else {
      var n := |more| - 1;
      AfterMore(events, more);
      DeliverMoves(events, more[..n], j);
      NextDelivers(After(events + more[..n]).value, more[n], After(events).value.main[j], j, Turns(more[..n]));
    }
  }

  /** Only turns of the main queue take blocks from it; the log only grows. */
  lemma NextMoves(m: Model, e: Event)
    requires Enabled(m, e)
    ensures m.log <= Next(m, e).log
    ensures (if e.RunMain? then m.main[1..] else m.main) <= Next(m, e).main
  {
    hide Matching, MostSpecific;
  }

  lemma DeliverRuns(m: Model)
    requires Enabled(m, RunMain) && m.main[0].Deliver?
    ensures Logged(Next(m, RunMain), m.main[0].ids, m.main[0].ranges)
  {
    var ids, ranges := m.main[0].ids, m.main[0].ranges;
    forall i | 0 <= i < |ids| ensures Outcome(ids[i], ranges) in Next(m, RunMain).log {
      assert Runs(ids, ranges)[i] == Outcome(ids[i], ranges);
      assert Next(m, RunMain).log[|m.log| + i] == Outcome(ids[i], ranges);
    }
  }

  lemma LogGrows(m: Model, m': Model, ids: seq<nat>, ranges: Option<seq<Range>>)
    requires Logged(m, ids, ranges) && m.log <= m'.log
    ensures Logged(m', ids, ranges)
  {}

  /** When the response for a key has been handled, every completion waiting on that key, including those that joined
      the request later, has run with that response's ranges once the main queue has had a turn for each block before
      and one for this response, whatever else happens in between. */
  lemma AnsweredCompletionsRun(events: seq<Event>, specific: Range, more: seq<Event>)
    requires After(events).Some? && Enabled(After(events).value, RunJob(specific))
    requires After(events).value.jobs[0].Response?
    requires After(events + [RunJob(specific)] + more).Some?
    requires Turns(more) > |After(events).value.main|
    ensures var m := After(events).value;
            && m.jobs[0].key in m.pending
            && Logged(After(events + [RunJob(specific)] + more).value, m.pending[m.jobs[0].key], m.jobs[0].ranges)
  {
    hide After, RangesInv, PlacesInv, FlightInv, Logged, Turns;
    RunKeeps(events);
    var m := After(events).value;
    ResponseIsPending(m);
    AfterOne(events, RunJob(specific));
    var next := Next(m, RunJob(specific));
    assert next.main[|m.main|] == Deliver(m.pending[m.jobs[0].key], m.jobs[0].ranges);
    DeliverMoves(events + [RunJob(specific)], more, |m.main|);
  }

  // ---------------------------------------------------------------- from the answer on

  /** Turns of the retrieval queue. */
  function JobTurns(events: seq<Event>): nat {
    if events == [] then 0 else JobTurns(events[..|events| - 1]) + if events[|events| - 1].RunJob? then 1 else 0
  }

  /** Each of these completions has run with the ranges, or a block of the main queue will run it with them. */
  ghost predicate Handled(m: Model, ids: seq<nat>, ranges: Option<seq<Range>>) {
    forall i | 0 <= i < |ids| :: Outcome(ids[i], ranges) in m.log || OnItsWay(m, ids[i], ranges)
  }

  ghost predicate OnItsWay(m: Model, id: nat, ranges: Option<seq<Range>>) {
    exists p :: 0 <= p < |m.main| && m.main[p].Deliver? && m.main[p].ranges == ranges && id in m.main[p].ids
  }

  /** The response that was at position `j` of the retrieval queue `t` turns ago is on its way there, with at least
      these completions waiting for it, or has been handled. */
  ghost predicate Coming(m: Model, key: Digits, ranges: Option<seq<Range>>, ids: seq<nat>, j: nat, t: nat) {
    if t <= j then
      j - t < |m.jobs| && m.jobs[j - t] == Response(key, ranges) && key in m.pending && ids <= m.pending[key]
    else Handled(m, ids, ranges)
  }

  lemma {:induction false} ResponseCounts(jobs: seq<Job>, i: nat, key: Digits)
    requires i < |jobs| && jobs[i].Response? && jobs[i].key == key
    ensures Responses(jobs, key) >= 1
    decreases i
  {
    if i > 0 { ResponseCounts(jobs[1..], i - 1, key); }
  }

  /** While a response is queued, none for the same key is ahead of it. */
  lemma NoneAhead(m: Model, i: nat)
    requires FlightInv(m) && 0 < i < |m.jobs| && m.jobs[i].Response? && m.jobs[0].Response?
    ensures m.jobs[0].key != m.jobs[i].key
  {
    hide Occurrences;
    var key := m.jobs[i].key;
    ResponseCounts(m.jobs[1..], i - 1, key);
    assert InFlight(m, key) <= 1;
  }

  lemma HandledNext(m: Model, e: Event, ids: seq<nat>, ranges: Option<seq<Range>>)
    requires Enabled(m, e) && Handled(m, ids, ranges)
    ensures Handled(Next(m, e), ids, ranges)
  {
    hide Next, Enabled;
    NextMoves(m, e);
    var m' := Next(m, e);
    forall i | 0 <= i < |ids| ensures Outcome(ids[i], ranges) in m'.log || OnItsWay(m', ids[i], ranges) {
      if Outcome(ids[i], ranges) !in m.log {
        var p :| 0 <= p < |m.main| && m.main[p].Deliver? && m.main[p].ranges == ranges && ids[i] in m.main[p].ids;
        WayNext(m, e, ids[i], ranges, p);
      }
    }
  }

  lemma WayNext(m: Model, e: Event, id: nat, ranges: Option<seq<Range>>, p: nat)
    requires Enabled(m, e) && p < |m.main|
    requires m.main[p].Deliver? && m.main[p].ranges == ranges && id in m.main[p].ids
    ensures Outcome(id, ranges) in Next(m, e).log || OnItsWay(Next(m, e), id, ranges)
  {
    hide Next, Enabled;
    NextMoves(m, e);
    if !e.RunMain? {
      assert Next(m, e).main[p] == m.main[p];
    } else if p > 0 {
      assert Next(m, e).main[p - 1] == m.main[p];
    } else {
      assert m.main != [] && Enabled(m, RunMain) by { MainEnabled(m); }
      DeliverRuns(m);
    }
  }

  lemma MainEnabled(m: Model)
    requires m.main != []
    ensures Enabled(m, RunMain)
  {}

  /** The block of the response queues the delivery of all completions waiting for it. */
  lemma ResponseHandled(m: Model, e: Event, key: Digits, ranges: Option<seq<Range>>, ids: seq<nat>)
    requires Enabled(m, e) && e.RunJob? && m.jobs[0] == Response(key, ranges) && key in m.pending &&
             ids <= m.pending[key]
    ensures Handled(Next(m, e), ids, ranges)
  {
    hide MostSpecific;
    var m' := Next(m, e);
    assert m'.main[|m.main|] == Deliver(m.pending[key], ranges);
    forall i | 0 <= i < |ids| ensures OnItsWay(m', ids[i], ranges) { assert ids[i] == m.pending[key][i]; }
  }

  /** Until then other blocks only add to those that wait. */
  lemma WaitingKept(m: Model, e: Event, key: Digits, ids: seq<nat>)
    requires Enabled(m, e) && key in m.pending && ids <= m.pending[key]
    requires e.RunJob? && m.jobs[0].Response? ==> m.jobs[0].key != key
    ensures key in Next(m, e).pending && ids <= Next(m, e).pending[key]
    ensures (if e.RunJob? then m.jobs[1..] else m.jobs) <= Next(m, e).jobs
  {
    hide MostSpecific, AnsweredLocally;
  }

  lemma NextComes(m: Model, e: Event, key: Digits, ranges: Option<seq<Range>>, ids: seq<nat>, j: nat, t: nat)
    requires FlightInv(m) && Enabled(m, e) && Coming(m, key, ranges, ids, j, t)
    ensures Coming(Next(m, e), key, ranges, ids, j, if e.RunJob? then t + 1 else t)
  {
    hide Next, Handled, FlightInv;
    if t > j {
      HandledNext(m, e, ids, ranges);
    } else if t == j && e.RunJob? {
      ResponseHandled(m, e, key, ranges, ids);
    } else {
      if e.RunJob? && m.jobs[0].Response? { NoneAhead(m, j - t); }
      WaitingKept(m, e, key, ids);
    }
  }

  lemma {:induction false} ResponseComes(events: seq<Event>, more: seq<Event>, key: Digits, ranges: Option<seq<Range>>,
                                         ids: seq<nat>, j: nat)
    requires After(events).Some? && After(events + more).Some?
    requires Coming(After(events).value, key, ranges, ids, j, 0)
    ensures Coming(After(events + more).value, key, ranges, ids, j, JobTurns(more))
    decreases |more|
  {
    hide Next, Enabled, After, Coming, PlacesInv, RangesInv, FlightInv;
    if more == [] {
      assert events + more == events;
    } else {
      var n := |more| - 1;
      AfterMore(events, more);
      ResponseComes(events, more[..n], key, ranges, ids, j);
      RunKeeps(events + more[..n]);
      NextComes(After(events + more[..n]).value, more[n], key, ranges, ids, j, JobTurns(more[..n]));
    }
  }

  lemma HandledRuns(events: seq<Event>, more: seq<Event>, ids: seq<nat>, ranges: Option<seq<Range>>)
    requires After(events).Some? && After(events + more).Some? && Handled(After(events).value, ids, ranges)
    requires Turns(more) >= |After(events).value.main|
    ensures Logged(After(events + more).value, ids, ranges)
  {
    hide After, Turns;
    var m, m' := After(events).value, After(events + more).value;
    LogOnlyGrows(events, more);
    forall i | 0 <= i < |ids| ensures Outcome(ids[i], ranges) in m'.log {
      if Outcome(ids[i], ranges) !in m.log {
        var p :| 0 <= p < |m.main| && m.main[p].Deliver? && m.main[p].ranges == ranges && ids[i] in m.main[p].ids;
        DeliverMoves(events, more, p);
      }
    }
  }

  lemma {:induction false} LogOnlyGrows(events: seq<Event>, more: seq<Event>)
    requires After(events).Some? && After(events + more).Some?
    ensures After(events).value.log <= After(events + more).value.log
    decreases |more|
  {
    hide Next, Enabled, After;
    if more == [] {
      assert events + more == events;
    } else {
      var n := |more| - 1;
      AfterMore(events, more);
      LogOnlyGrows(events, more[..n]);
      NextMoves(After(events + more[..n]).value, more[n]);
    }
  }

  /** Once the network has answered a request, whatever else happens: as soon as the retrieval queue has had a turn for
      each block ahead of the response and one for it (in `a`), and the main queue then a turn for each block it held
      (in `b`), every completion that was waiting for the answer has run with its ranges. */
  lemma AnswerIsDelivered(events: seq<Event>, n: nat, ranges: Option<seq<Range>>, a: seq<Event>, b: seq<Event>)
    requires After(events).Some? && Enabled(After(events).value, Answer(n, ranges))
    requires After(events + [Answer(n, ranges)] + a).Some? && After(events + [Answer(n, ranges)] + a + b).Some?
    requires JobTurns(a) > |After(events).value.jobs|
    requires Turns(b) >= |After(events + [Answer(n, ranges)] + a).value.main|
    ensures var m := After(events).value;
            && m.network[n] in m.pending
            && Logged(After(events + [Answer(n, ranges)] + a + b).value, m.pending[m.network[n]], ranges)
  {
    hide After, Turns, JobTurns, Logged, Handled, PlacesInv, RangesInv;
    RunKeeps(events);
    var m := After(events).value;
    var key := m.network[n];
    AnsweredIsPending(m, n);
    AfterOne(events, Answer(n, ranges));
    var start := events + [Answer(n, ranges)];
    assert Coming(After(start).value, key, ranges, m.pending[key], |m.jobs|, 0);
    ResponseComes(start, a, key, ranges, m.pending[key], |m.jobs|);
    HandledRuns(start + a, b, m.pending[key], ranges);
  }

  lemma AnsweredIsPending(m: Model, n: nat)
    requires FlightInv(m) && n < |m.network|
    ensures m.network[n] in m.pending
  {
    hide Occurrences, Responses;
    OccursAt(m.network, n);
    assert InFlight(m, m.network[n]) >= 1;
  }

  lemma {:induction false} OccursAt<T>(xs: seq<T>, i: nat)
    requires i < |xs|
    ensures Occurrences(xs, xs[i]) >= 1
    decreases i
  {
    if i > 0 { OccursAt(xs[1..], i - 1); }
  }

  // ---------------------------------------------------------------- progress

  /** Nothing is queued and no request is unanswered. */
  predicate Quiescent(m: Model) { m.jobs == [] && m.network == [] && m.main == [] }

  /** The queues are never stuck: while anything is left, the head of the retrieval queue, a response or the head of
      the main queue can go ahead. In particular the range look-up of the retrieval queue always finds a range. */
  lemma NeverStuck(m: Model) returns (e: Event)
    requires Inv(m) && !Quiescent(m)
    ensures Enabled(m, e) && !e.Call?
    ensures m.jobs != [] ==> e.RunJob?
  {
    hide MostSpecific, FlightInv, PlacesInv, RangesOf;
    if m.jobs != [] {
      assert UNKNOWN in m.allRanges by { assert m.allRanges[0] == BuiltIn()[0] == UNKNOWN; }
      var prefix := match m.jobs[0] case Retrieve(prefix, _) => prefix case Response(key, _) => key;
      var specific := MostSpecificExists(m.allRanges, Cut(prefix, PREFIX_LENGTH - 1));
      e := RunJob(specific);
    } else if m.network != [] {
      e := Answer(0, None);
    } else {
      e := RunMain;
    }
  }

  function JobsWork(jobs: seq<Job>): nat {
    if jobs == [] then 0 else (if jobs[0].Retrieve? then 4 else 2) + JobsWork(jobs[1..])
  }

  /** The events that what is queued can still cause. */
  function Work(m: Model): nat {
    JobsWork(m.jobs) + 3 * |m.network| + |m.main|
  }

  lemma {:induction false} JobsWorkAppend(jobs: seq<Job>, j: Job)
    ensures JobsWork(jobs + [j]) == JobsWork(jobs) + if j.Retrieve? then 4 else 2
    decreases |jobs|
  {
    if jobs == [] {
      assert jobs + [j] == [j] && [j][1..] == [];
    } else {
      assert (jobs + [j])[1..] == jobs[1..] + [j];
      JobsWorkAppend(jobs[1..], j);
    }
  }

  lemma NextWorks(m: Model, e: Event)
    requires Enabled(m, e) && !e.Call?
    ensures Work(Next(m, e)) < Work(m)
  {
    hide Matching, MostSpecific;
    if e.Answer? { JobsWorkAppend(m.jobs, Response(m.network[e.index], e.ranges)); }
  }

  /** Without new calls only finitely many events can follow, in any order. */
  lemma {:induction false} WorkBounds(events: seq<Event>, more: seq<Event>)
    requires After(events).Some? && After(events + more).Some?
    requires forall i | 0 <= i < |more| :: !more[i].Call?
    ensures |more| + Work(After(events + more).value) <= Work(After(events).value)
    decreases |more|
  {
    hide Next, Enabled, Work, After;
    if more == [] {
      assert events + more == events;
    } else {
      var n := |more| - 1;
      AfterMore(events, more);
      WorkBounds(events, more[..n]);
      NextWorks(After(events + more[..n]).value, more[n]);
    }
  }

  /** So every run that goes on as long as it can without new calls ends with each completion run exactly once: from
      any reachable state such a run leads on, and it cannot stop before everything is done. */
  lemma {:induction false} EveryCallCompletes(events: seq<Event>) returns (more: seq<Event>)
    requires After(events).Some?
    ensures After(events + more).Some? && Quiescent(After(events + more).value)
    ensures forall i | 0 <= i < |more| :: !more[i].Call?
    ensures var m := After(events + more).value;
            m.pending == map[] && forall id :: Completed(m.log, id) == if id in m.called then 1 else 0
    decreases Work(After(events).value)
  {
    hide Inv, Next, Enabled, After, Work, Completed;
    RunKeeps(events);
    var m := After(events).value;
    if Quiescent(m) {
      more := [];
      assert events + [] == events;
      QuiescentMeansDone(events);
    } else {
      var e := NeverStuck(m);
      AfterOne(events, e);
      NextWorks(m, e);
      var rest := EveryCallCompletes(events + [e]);
      more := [e] + rest;
      assert events + more == events + [e] + rest;
    }
  }
}
