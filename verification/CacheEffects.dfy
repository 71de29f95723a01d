/** What each block of the BIN cache does in every reachable state: when a call is answered from the device, joins a
    request or sends one, when its completion runs and with what, and what a response changes. */
module CacheEffects {
  import opened Common
  import opened Luhn
  import opened BinRange
  import opened BinTable
  import opened BrandTable
  import opened BinCache
  import opened CacheRuns

  /** The call can only be answered by the service: it has the six digits a request takes, the service was not asked for
      them before with success, and the range found for the first five digits is of a brand of variable length. */
  predicate NeedsService(m: Model, prefix: Digits, specific: Range) {
    |prefix| >= 6 && prefix[..6] !in m.retrieved && specific.brand == UnionPay
  }

  /** The block of a call, in any reachable state. `specific` is a most specific range of the first five digits. */
  lemma RetrieveEffect(events: seq<Event>, specific: Range)
    requires After(events).Some? && Enabled(After(events).value, RunJob(specific))
    requires After(events).value.jobs[0].Retrieve?
    ensures After(events + [RunJob(specific)]).Some?
    ensures var m, m' := After(events).value, After(events + [RunJob(specific)]).value;
            var prefix, id := m.jobs[0].prefix, m.jobs[0].id;
            && MostSpecific(m.allRanges, if |prefix| >= 5 then prefix[..5] else prefix, specific)
            && m'.jobs == m.jobs[1..]
            && m'.retrieved == m.retrieved && m'.allRanges == m.allRanges && m'.log == m.log
            && if !NeedsService(m, prefix, specific) then
                 m'.main == m.main + [Local(prefix, id)] && m'.pending == m.pending && m'.network == m.network
               else
                 && m'.main == m.main
                 && m'.network == (if prefix[..6] in m.pending then m.network else m.network + [prefix[..6]])
                 && m'.pending ==
                    m.pending[prefix[..6] := (if prefix[..6] in m.pending then m.pending[prefix[..6]] else []) + [id]]
  {
    hide After, MostSpecific, BuiltIn;
    AfterOne(events, RunJob(specific));
    assert [] + [After(events).value.jobs[0].id] == [After(events).value.jobs[0].id];
  }

  // ---------------------------------------------------------------- the completion of a call

  /** Turn `n` of `more` runs a block that has `j` blocks ahead of it. */
  ghost predicate TurnOf(more: seq<Event>, j: nat, n: nat) {
    n < |more| && more[n].RunMain? && Turns(more[..n]) == j
  }

  /** Among enough turns there is the one of a given block. */
  lemma {:induction false} TurnFor(more: seq<Event>, j: nat) returns (n: nat)
    requires Turns(more) > j
    ensures TurnOf(more, j, n)
    decreases |more|
  {
    var k := |more| - 1;
    if Turns(more[..k]) > j {
      n := TurnFor(more[..k], j);
      assert more[..k][..n] == more[..n];
    } else {
      n := k;
    }
  }

  /** A block of the main queue moves up with every turn. */
  lemma {:induction false} BlockMoves(events: seq<Event>, more: seq<Event>, j: nat)
    requires After(events).Some? && After(events + more).Some?
    requires j < |After(events).value.main| && Turns(more) <= j
    ensures var m := After(events + more).value;
            j - Turns(more) < |m.main| && m.main[j - Turns(more)] == After(events).value.main[j]
    decreases |more|
  {
    hide Next, Enabled, After;
    if more == [] {
      assert events + more == events;
    } else {
      var n := |more| - 1;
      AfterMore(events, more);
      BlockMoves(events, more[..n], j);
      NextMoves(After(events + more[..n]).value, more[n]);
    }
  }

  lemma {:induction false} AfterPrefix(events: seq<Event>, n: nat)
    requires After(events).Some? && n <= |events|
    ensures After(events[..n]).Some?
    decreases |events|
  {
    if n < |events| {
      AfterPrefix(events[..|events| - 1], n);
      assert events[..|events| - 1][..n] == events[..n];
    } else {
      assert events[..n] == events;
    }
  }

  /** The completion of a call that is answered from the device runs once the main queue has had a turn for each block
      ahead of it and one more, with the ranges that match the whole prefix among those known at its own turn. */
  lemma LocalAnswer(events: seq<Event>, j: nat, more: seq<Event>) returns (n: nat)
    requires After(events).Some? && After(events + more).Some?
    requires j < |After(events).value.main| && After(events).value.main[j].Local? && Turns(more) > j
    ensures TurnOf(more, j, n) && After(events + more[..n]).Some?
    ensures var block := After(events).value.main[j];
            Outcome(block.id, Some(Matching(After(events + more[..n]).value.allRanges, block.prefix)))
              in After(events + more).value.log
  {
    hide After, Turns, Matching;
    n := TurnFor(more, j);
    var before := events + more[..n];
    assert (events + more)[..|events| + n] == before;
    AfterPrefix(events + more, |events| + n);
    BlockMoves(events, more[..n], j);
    assert (events + more)[..|events| + n + 1] == before + [RunMain];
    AfterPrefix(events + more, |events| + n + 1);
    assert before + [RunMain] + more[n + 1..] == events + more;
    LocalRuns(before);
    LogOnlyGrows(before + [RunMain], more[n + 1..]);
  }

  /** So a call that does not need the service is answered with what the device knows when its completion runs. */
  lemma AnsweredFromDevice(events: seq<Event>, specific: Range, more: seq<Event>) returns (n: nat)
    requires After(events).Some? && Enabled(After(events).value, RunJob(specific))
    requires var m := After(events).value;
             m.jobs[0].Retrieve? && !NeedsService(m, m.jobs[0].prefix, specific) && Turns(more) > |m.main|
    requires After(events + [RunJob(specific)] + more).Some?
    ensures TurnOf(more, |After(events).value.main|, n)
    ensures After(events + [RunJob(specific)] + more[..n]).Some?
    ensures var job := After(events).value.jobs[0];
            var known := After(events + [RunJob(specific)] + more[..n]).value.allRanges;
            Outcome(job.id, Some(Matching(known, job.prefix))) in After(events + [RunJob(specific)] + more).value.log
  {
    hide After, Turns, Matching, MostSpecific;
    RetrieveEffect(events, specific);
    n := LocalAnswer(events + [RunJob(specific)], |After(events).value.main|, more);
  }

  lemma LocalRuns(events: seq<Event>)
    requires After(events).Some? && After(events + [RunMain]).Some?
    ensures After(events).value.main != []
    ensures var m := After(events).value;
            m.main[0].Local? ==>
              Outcome(m.main[0].id, Some(Matching(m.allRanges, m.main[0].prefix)))
                in After(events + [RunMain]).value.log
  {
    hide Matching;
    assert (events + [RunMain])[..|events|] == events;
  }

  /** The ranges a completion gets are the matching ones, in the order of the range list. */
  lemma {:induction false} MatchingApart(a: seq<Range>, b: seq<Range>, number: Digits)
    ensures Matching(a + b, number) == Matching(a, number) + Matching(b, number)
    decreases |a|
  {
    hide Matches;
    if a == [] {
      assert a + b == b;
    } else {
      assert (a + b)[1..] == a[1..] + b;
      MatchingApart(a[1..], b, number);
      var first := if Matches(a[0], number) then [a[0]] else [];
      assert first + (Matching(a[1..], number) + Matching(b, number)) ==
             (first + Matching(a[1..], number)) + Matching(b, number);
    }
  }

  lemma MatchingOne(r: Range, number: Digits)
    ensures Matching([r], number) == if Matches(r, number) then [r] else []
  {
    hide Matches;
    assert [r][1..] == [];
    assert Matching([], number) == [];
  }

  // ---------------------------------------------------------------- the first request

  /** While no response has brought ranges, a call's block sends a request exactly when the prefix has at least six
      digits and begins with 62 or 81, and its six digits are not pending. */
  lemma FirstRequestIff(events: seq<Event>, specific: Range)
    requires After(events).Some? && Enabled(After(events).value, RunJob(specific))
    requires After(events).value.jobs[0].Retrieve? && After(events).value.retrieved == map[]
    ensures After(events + [RunJob(specific)]).Some?
    ensures var m, m' := After(events).value, After(events + [RunJob(specific)]).value;
            var prefix := m.jobs[0].prefix;
            m'.network != m.network <==>
            |prefix| >= 6 && (prefix[..2] == [6, 2] || prefix[..2] == [8, 1]) && prefix[..6] !in m.pending
  {
    hide After, MostSpecific, BuiltIn, NeedsService;
    RetrieveEffect(events, specific);
    CacheRanges(events);
    var m := After(events).value;
    var prefix := m.jobs[0].prefix;
    NothingRetrieved(m.order, m.retrieved);
    assert m.allRanges == BuiltIn() by { assert BuiltIn() + [] == BuiltIn(); }
    ServiceOnFirst(m, prefix, specific);
    if |prefix| >= 6 {
      KnownBrand(prefix[..5], specific);
      assert prefix[..2] == [prefix[0], prefix[1]];
      UnionPayDigits(prefix[0], prefix[1]);
    }
  }

  lemma ServiceOnFirst(m: Model, prefix: Digits, specific: Range)
    requires m.retrieved == map[]
    ensures NeedsService(m, prefix, specific) <==> |prefix| >= 6 && specific.brand == UnionPay
  {}

  lemma UnionPayDigits(a: digit, b: digit)
    ensures BrandOf(10 * (a as int) + b) == UnionPay <==> (a == 6 && b == 2) || (a == 8 && b == 1)
  {}

  lemma NothingRetrieved(order: seq<Digits>, retrieved: map<Digits, seq<Range>>)
    requires forall k :: k in order <==> k in retrieved
    ensures order != [] ==> retrieved != map[]
  {
    if order != [] { assert order[0] in retrieved; }
  }

  // ---------------------------------------------------------------- the other blocks

  /** What can happen next in a reachable state: a call with a completion not handed in before, a turn of the retrieval
      queue, any answer to any request in flight, a turn of the main queue. */
  lemma NextEvents(events: seq<Event>, e: Event)
    requires After(events).Some?
    ensures var m := After(events).value;
            After(events + [e]).Some? <==>
            match e
            case Call(_, id) => id !in m.called
            case RunJob(specific) =>
              m.jobs != [] &&
              (m.jobs[0].Retrieve? ==>
                 var prefix := m.jobs[0].prefix;
                 MostSpecific(m.allRanges, if |prefix| >= 5 then prefix[..5] else prefix, specific))
            case Answer(i, _) => i < |m.network|
            case RunMain => m.main != []
  {
    hide Next, MostSpecific;
    assert (events + [e])[..|events|] == events;
  }

  /** The block of a response, in any reachable state: with a successful one the key is retrieved and its ranges are
      known from now on; after a failed one a later call asks again. Either way those that waited get it. */
  lemma ResponseEffect(events: seq<Event>, specific: Range)
    requires After(events).Some? && Enabled(After(events).value, RunJob(specific))
    requires After(events).value.jobs[0].Response?
    ensures After(events + [RunJob(specific)]).Some?
    ensures var m, m' := After(events).value, After(events + [RunJob(specific)]).value;
            var key, ranges := m.jobs[0].key, m.jobs[0].ranges;
            && key in m.pending && key !in m.retrieved
            && m'.pending == m.pending - {key}
            && m'.main == m.main + [Deliver(m.pending[key], ranges)]
            && m'.jobs == m.jobs[1..] && m'.network == m.network && m'.log == m.log
            && m'.retrieved == (if ranges.Some? then m.retrieved[key := ranges.value] else m.retrieved)
            && m'.allRanges == (if ranges.Some? then m.allRanges + ranges.value else m.allRanges)
  {
    hide After, BuiltIn, RangesOf, PlacesInv;
    AfterOne(events, RunJob(specific));
    RunKeeps(events);
    ResponseIsPending(After(events).value);
  }

  /** A block of the retrieval queue moves up with every turn, whatever else is queued: calls and responses are handled
      in the order in which they came. */
  lemma {:induction false} JobMoves(events: seq<Event>, more: seq<Event>, j: nat)
    requires After(events).Some? && After(events + more).Some?
    requires j < |After(events).value.jobs| && JobTurns(more) <= j
    ensures var m := After(events + more).value;
            j - JobTurns(more) < |m.jobs| && m.jobs[j - JobTurns(more)] == After(events).value.jobs[j]
    decreases |more|
  {
    hide Next, Enabled, After;
    if more == [] {
      assert events + more == events;
    } else {
      var n := |more| - 1;
      AfterMore(events, more);
      JobMoves(events, more[..n], j);
      JobsMove(After(events + more[..n]).value, more[n]);
    }
  }

  lemma JobsMove(m: Model, e: Event)
    requires Enabled(m, e)
    ensures (if e.RunJob? then m.jobs[1..] else m.jobs) <= Next(m, e).jobs
  {
    hide MostSpecific, AnsweredLocally;
  }

  /** From a call on: when the retrieval queue has had a turn for each block ahead of it, its block is next. */
  lemma CallComes(events: seq<Event>, prefix: Digits, id: nat, more: seq<Event>)
    requires After(events).Some? && After(events + [Call(prefix, id)]).Some?
    requires After(events + [Call(prefix, id)] + more).Some? && JobTurns(more) == |After(events).value.jobs|
    ensures var m := After(events + [Call(prefix, id)] + more).value; m.jobs != [] && m.jobs[0] == Retrieve(prefix, id)
  {
    hide After, JobTurns;
    CallQueues(events, prefix, id);
    JobMoves(events + [Call(prefix, id)], more, |After(events).value.jobs|);
  }

  lemma CallQueues(events: seq<Event>, prefix: Digits, id: nat)
    requires After(events).Some? && After(events + [Call(prefix, id)]).Some?
    ensures After(events + [Call(prefix, id)]).value.jobs == After(events).value.jobs + [Retrieve(prefix, id)]
  {
    assert (events + [Call(prefix, id)])[..|events|] == events;
  }

  /** From an answer on: when the retrieval queue has had a turn for each block ahead of it, its response is next. */
  lemma AnswerComes(events: seq<Event>, i: nat, ranges: Option<seq<Range>>, more: seq<Event>)
    requires After(events).Some? && i < |After(events).value.network|
    requires After(events + [Answer(i, ranges)] + more).Some? && JobTurns(more) == |After(events).value.jobs|
    ensures var m := After(events + [Answer(i, ranges)] + more).value;
            m.jobs != [] && m.jobs[0] == Response(After(events).value.network[i], ranges)
  {
    hide After, JobTurns;
    AfterOne(events, Answer(i, ranges));
    JobMoves(events + [Answer(i, ranges)], more, |After(events).value.jobs|);
  }
}
