/** FirebaseManager: organisations fetched in chunks, and the join of stored donates with them. */
module Organisations {
  import opened Common

  type Id = string
  datatype Organisation = Organisation(id: Id, name: string)
  datatype DonateRef = DonateRef(id: Id, amount: int, organisationId: Id)
  datatype Donate = Donate(id: Id, amount: int, organisation: Organisation)

  /** The organisations collection, by document id. */
  predicate ValidDb(db: map<Id, Organisation>) {
    forall id | id in db :: db[id].id == id
  }

  // ---------------------------------------------------------------- chunks

  /** The slices from `start` on, by steps of `size`. */
  function ChunksFrom<T>(xs: seq<T>, start: nat, size: nat): seq<seq<T>>
    requires size > 0
    decreases |xs| - start
  {
    if start >= |xs| then []
    else [xs[start..if start + size < |xs| then start + size else |xs|]] + ChunksFrom(xs, start + size, size)
  }

  /** Array.chunked(into:). */
  function Chunked<T>(xs: seq<T>, size: nat): seq<seq<T>>
    requires size > 0
  {
    ChunksFrom(xs, 0, size)
  }

  lemma {:induction false} ChunksFromPartition<T>(xs: seq<T>, start: nat, size: nat)
    requires size > 0
    ensures var cs := ChunksFrom(xs, start, size);
            && Flatten(cs) == (if start >= |xs| then [] else xs[start..])
            && (forall k | 0 <= k < |cs| :: 0 < |cs[k]| <= size)
            && (forall k | 0 <= k < |cs| - 1 :: |cs[k]| == size)
            && (cs == [] <==> start >= |xs|)
    decreases |xs| - start
  {
    if start < |xs| {
      ChunksFromPartition(xs, start + size, size);
      if start + size < |xs| { assert xs[start..start + size] + xs[start + size..] == xs[start..]; }
    }
  }

  /** Chunking cuts the list into consecutive full pieces, with a shorter one only at the end. */
  lemma ChunkedPartition<T>(xs: seq<T>, size: nat)
    requires size > 0
    ensures var cs := Chunked(xs, size);
            && Flatten(cs) == xs
            && (forall k | 0 <= k < |cs| :: 0 < |cs[k]| <= size)
            && (forall k | 0 <= k < |cs| - 1 :: |cs[k]| == size)
            && (cs == [] <==> xs == [])
  {
    ChunksFromPartition(xs, 0, size);
  }

  lemma {:induction false} InSomeChunk<T>(cs: seq<seq<T>>, x: T)
    ensures x in Flatten(cs) <==> exists k :: 0 <= k < |cs| && x in cs[k]
    decreases |cs|
  {
    if cs != [] {
      InSomeChunk(cs[1..], x);
      if x in Flatten(cs[1..]) {
        var k :| 0 <= k < |cs[1..]| && x in cs[1..][k];
        assert x in cs[k + 1];
      }
      if k :| 0 <= k < |cs| && x in cs[k] {
        if k > 0 { assert x in cs[1..][k - 1]; }
      }
    }
  }

  // ---------------------------------------------------------------- the chunk queries

  /** The response to one chunk query: None on error, else the existing organisations among the chunk, in any order. */
  datatype Answer = Answer(chunk: nat, documents: Option<seq<Organisation>>)

  predicate ValidAnswer(db: map<Id, Organisation>, chunks: seq<seq<Id>>, a: Answer) {
    a.chunk < |chunks| &&
    (a.documents.Some? ==>
       && (forall o | o in a.documents.value :: o.id in db && db[o.id] == o && o.id in chunks[a.chunk])
       && (forall id | id in chunks[a.chunk] && id in db :: db[id] in a.documents.value))
  }

  /** A valid order of responses: each chunk answers at most once. */
  predicate ValidAnswers(db: map<Id, Organisation>, chunks: seq<seq<Id>>, answers: seq<Answer>) {
    && (forall i | 0 <= i < |answers| :: ValidAnswer(db, chunks, answers[i]))
    && forall i, j | 0 <= i < j < |answers| :: answers[i].chunk != answers[j].chunk
  }

  /** queryCount, result, and the calls of the completion. */
  datatype Fetch = Fetch(total: nat, queryCount: nat, result: seq<Organisation>, completions: seq<seq<Organisation>>)

  function OnSnapshot(f: Fetch, a: Answer): Fetch {
    var result := f.result + if a.documents.Some? then a.documents.value else [];
    Fetch(f.total, f.queryCount + 1, result,
          if f.queryCount + 1 == f.total then f.completions + [result] else f.completions)
  }

  /** The captured variables of fetchOrganisations. */
  class OrganisationFetch {
    const total: nat
    var queryCount: nat
    var result: seq<Organisation>
    ghost var completions: seq<seq<Organisation>>

    ghost function State(): Fetch
      reads this
    {
      Fetch(total, queryCount, result, completions)
    }

    constructor (total: nat)
      ensures State() == RunFetch(total, [])
    {
      this.total := total;
      queryCount, result, completions := 0, [], [];
    }

    /** The block each chunk query calls. */
    method Snapshot(a: Answer)
      modifies this
      ensures State() == OnSnapshot(old(State()), a)
    {
      queryCount := queryCount + 1;
      var organisations := if a.documents.Some? then a.documents.value else [];
      result := result + organisations;
      if queryCount == total { completions := completions + [result]; }
    }
  }

  function RunFetch(total: nat, answers: seq<Answer>): Fetch {
    if answers == [] then Fetch(total, 0, [], [])
    else OnSnapshot(RunFetch(total, answers[..|answers| - 1]), answers[|answers| - 1])
  }

  /** The organisations a sequence of responses brings. */
  ghost predicate Brought(answers: seq<Answer>, o: Organisation) {
    exists i :: 0 <= i < |answers| && answers[i].documents.Some? && o in answers[i].documents.value
  }

  lemma {:induction false} FetchInvariant(total: nat, answers: seq<Answer>)
    requires |answers| <= total
    ensures var f := RunFetch(total, answers);
            && f.total == total && f.queryCount == |answers|
            && (forall o :: o in f.result <==> Brought(answers, o))
            && f.completions == if |answers| == total && total > 0 then [f.result] else []
    decreases |answers|
  {
    if answers != [] {
      var n := |answers| - 1;
      FetchInvariant(total, answers[..n]);
      var f := RunFetch(total, answers);
      forall o ensures o in f.result <==> Brought(answers, o) {
        if Brought(answers[..n], o) {
          var i :| 0 <= i < n && answers[..n][i].documents.Some? && o in answers[..n][i].documents.value;
          assert answers[i].documents.Some? && o in answers[i].documents.value;
        }
        if Brought(answers, o) {
          var i :| 0 <= i < |answers| && answers[i].documents.Some? && o in answers[i].documents.value;
          if i < n { assert answers[..n][i] == answers[i]; }
        }
      }
    }
  }

  /** The documents of each response, in the order in which the responses came; a failed one has none. */
  function Delivered(answers: seq<Answer>): (r: seq<seq<Organisation>>)
    ensures |r| == |answers|
  {
    seq(|answers|, i requires 0 <= i < |answers| =>
      if answers[i].documents.Some? then answers[i].documents.value else [])
  }

  lemma {:induction false} FlattenLast<T>(xss: seq<seq<T>>, xs: seq<T>)
    ensures Flatten(xss + [xs]) == Flatten(xss) + xs
    decreases |xss|
  {
    if xss == [] {
      assert [xs][1..] == [] && xs + [] == xs;
    } else {
      assert (xss + [xs])[1..] == xss[1..] + [xs];
      FlattenLast(xss[1..], xs);
    }
  }

  /** The result is these documents one response after the other. */
  lemma {:induction false} ResultInOrder(total: nat, answers: seq<Answer>)
    ensures RunFetch(total, answers).result == Flatten(Delivered(answers))
    decreases |answers|
  {
    if answers != [] {
      var n := |answers| - 1;
      ResultInOrder(total, answers[..n]);
      var last := if answers[n].documents.Some? then answers[n].documents.value else [];
      assert Delivered(answers) == Delivered(answers[..n]) + [last];
      FlattenLast(Delivered(answers[..n]), last);
    }
  }

  lemma {:induction false} PigeonholeSet(n: nat, s: set<nat>)
    requires |s| == n && forall k | k in s :: k < n
    ensures forall k: nat | k < n :: k in s
    decreases n
  {
    if n > 0 {
      if n - 1 in s {
        PigeonholeSet(n - 1, s - {n - 1});
        forall k: nat | k < n ensures k in s { if k < n - 1 { assert k in s - {n - 1}; } }
      } else {
        SmallSet(n - 1, s);
      }
    }
  }

  lemma {:induction false} SmallSet(n: nat, s: set<nat>)
    requires forall k | k in s :: k < n
    ensures |s| <= n
    decreases n
  {
    if n > 0 {
      SmallSet(n - 1, s - {n - 1});
      if n - 1 !in s { assert s - {n - 1} == s; }
    } else {
      assert s == {};
    }
  }

  function ChunksAnswered(answers: seq<Answer>): set<nat> {
    set i | 0 <= i < |answers| :: answers[i].chunk
  }

  lemma {:induction false} CountAnswered(answers: seq<Answer>)
    requires forall i, j | 0 <= i < j < |answers| :: answers[i].chunk != answers[j].chunk
    ensures |ChunksAnswered(answers)| == |answers|
    decreases |answers|
  {
    if answers != [] {
      var n := |answers| - 1;
      CountAnswered(answers[..n]);
      assert ChunksAnswered(answers) == ChunksAnswered(answers[..n]) + {answers[n].chunk};
      assert answers[n].chunk !in ChunksAnswered(answers[..n]);
    }
  }

  /** The calls of the completion: at once for no ids, else when the last chunk query has answered. */
  function Completions(ids: seq<Id>, uniq: seq<Id>, answers: seq<Answer>): seq<seq<Organisation>> {
    if ids == [] then [[]] else RunFetch(|Chunked(uniq, 10)|, answers).completions
  }

  /** The query of a chunk that has `id` answered without error. */
  ghost predicate Reached(chunks: seq<seq<Id>>, answers: seq<Answer>, id: Id) {
    exists i :: 0 <= i < |answers| && answers[i].documents.Some? && answers[i].chunk < |chunks| &&
        id in chunks[answers[i].chunk]
  }

  /** The documents of `db` that the answers could bring. */
  ghost function Visible(db: map<Id, Organisation>, chunks: seq<seq<Id>>, answers: seq<Answer>): map<Id, Organisation> {
    map id | id in db && Reached(chunks, answers, id) :: db[id]
  }

  lemma BroughtIff(db: map<Id, Organisation>, chunks: seq<seq<Id>>, answers: seq<Answer>, o: Organisation)
    requires ValidDb(db) && ValidAnswers(db, chunks, answers)
    ensures Brought(answers, o) <==> o.id in db && db[o.id] == o && Reached(chunks, answers, o.id)
  {
    if Brought(answers, o) {
      var i :| 0 <= i < |answers| && answers[i].documents.Some? && o in answers[i].documents.value;
      assert ValidAnswer(db, chunks, answers[i]);
    }
    if o.id in db && db[o.id] == o && Reached(chunks, answers, o.id) {
      var i :| 0 <= i < |answers| && answers[i].documents.Some? && answers[i].chunk < |chunks| &&
          o.id in chunks[answers[i].chunk];
      assert ValidAnswer(db, chunks, answers[i]);
    }
  }

  /** A query that answers without error reaches ids of its chunk, and of the list. */
  lemma ReachedAsked(uniq: seq<Id>, answers: seq<Answer>, id: Id)
    requires Reached(Chunked(uniq, 10), answers, id)
    ensures id in uniq
  {
    hide ChunksFrom, Flatten;
    var chunks := Chunked(uniq, 10);
    var i :| 0 <= i < |answers| && answers[i].documents.Some? && answers[i].chunk < |chunks| &&
        id in chunks[answers[i].chunk];
    ChunkedPartition(uniq, 10);
    InSomeChunk(chunks, id);
  }

  /** fetchOrganisations(ids:), in whatever order `uniq` lists the distinct ids and the chunk queries answer, and
      whichever of them fail: the completion runs exactly once, at the last response, with the existing organisations
      among the ids whose chunk query succeeded. */
  lemma FetchCompletes(db: map<Id, Organisation>, ids: seq<Id>, uniq: seq<Id>, answers: seq<Answer>)
    requires ValidDb(db) && forall id :: id in uniq <==> id in ids
    requires ValidAnswers(db, Chunked(uniq, 10), answers)
    ensures |answers| <= |Chunked(uniq, 10)|
    ensures var completions := Completions(ids, uniq, answers);
            if |answers| < |Chunked(uniq, 10)| then completions == []
            else |completions| == 1 && forall o :: o in completions[0] <==>
                   o.id in ids && o.id in db && db[o.id] == o && Reached(Chunked(uniq, 10), answers, o.id)
  {
    hide ChunksFrom, Flatten, ValidAnswers, Reached, Brought, ChunksAnswered;
    var chunks := Chunked(uniq, 10);
    ChunkedPartition(uniq, 10);
    AnswersWithin(db, chunks, answers);
    FetchInvariant(|chunks|, answers);
    if ids == [] {
      NoneAsked(ids, uniq);
      forall o: Organisation ensures !Reached(chunks, answers, o.id) { NothingReached(chunks, answers, o.id); }
    } else {
      assert ids[0] in uniq;
      forall o ensures o in RunFetch(|chunks|, answers).result <==>
                       o.id in ids && o.id in db && db[o.id] == o && Reached(chunks, answers, o.id)
      {
        BroughtIff(db, chunks, answers, o);
        if Reached(chunks, answers, o.id) { ReachedAsked(uniq, answers, o.id); }
      }
    }
  }

  lemma NoneAsked(ids: seq<Id>, uniq: seq<Id>)
    requires forall id :: id in uniq <==> id in ids
    ensures ids == [] ==> uniq == []
  {
    if uniq != [] { assert uniq[0] in ids; }
  }

  lemma NothingReached(chunks: seq<seq<Id>>, answers: seq<Answer>, id: Id)
    requires chunks == []
    ensures !Reached(chunks, answers, id)
  {}

  lemma AnswersWithin(db: map<Id, Organisation>, chunks: seq<seq<Id>>, answers: seq<Answer>)
    requires ValidAnswers(db, chunks, answers)
    ensures |answers| <= |chunks|
    ensures |answers| == |chunks| ==> forall k: nat | k < |chunks| :: k in ChunksAnswered(answers)
  {
    CountAnswered(answers);
    SmallSet(|chunks|, ChunksAnswered(answers));
    if |answers| == |chunks| { PigeonholeSet(|chunks|, ChunksAnswered(answers)); }
  }

  /** When all queries have answered, the completion receives every existing organisation among the ids if and only if
      each of them lies in a chunk whose query succeeded. */
  lemma CompleteIff(db: map<Id, Organisation>, ids: seq<Id>, uniq: seq<Id>, answers: seq<Answer>)
    requires ValidDb(db) && forall id :: id in uniq <==> id in ids
    requires ValidAnswers(db, Chunked(uniq, 10), answers) && |answers| == |Chunked(uniq, 10)|
    ensures |Completions(ids, uniq, answers)| == 1
    ensures (forall o :: o in Completions(ids, uniq, answers)[0] <==> o.id in ids && o.id in db && db[o.id] == o) <==>
            (forall id | id in ids && id in db :: Reached(Chunked(uniq, 10), answers, id))
  {
    hide Chunked, ValidAnswers, Reached, RunFetch, Completions;
    FetchCompletes(db, ids, uniq, answers);
    if forall o :: o in Completions(ids, uniq, answers)[0] <==> o.id in ids && o.id in db && db[o.id] == o {
      forall id | id in ids && id in db ensures Reached(Chunked(uniq, 10), answers, id) {
        assert db[id] in Completions(ids, uniq, answers)[0];
      }
    }
  }

  /** One failing query: an organisation that exists is asked for, and the completion receives nothing. */
  lemma FailureLosesOrganisation(o: Organisation)
    ensures var db, answers := map[o.id := o], [Answer(0, None)];
            && ValidDb(db) && ValidAnswers(db, Chunked([o.id], 10), answers) && |Chunked([o.id], 10)| == 1
            && Completions([o.id], [o.id], answers) == [[]]
  {
    var chunks := Chunked([o.id], 10);
    assert ChunksFrom([o.id], 10, 10) == [];
    assert chunks == [[o.id][0..1]];
    var answers := [Answer(0, None)];
    assert answers[..0] == [];
    assert RunFetch(1, answers) == OnSnapshot(RunFetch(1, []), answers[0]);
  }

  /** The answers with each failure replaced by an answer without documents. */
  function Emptied(answers: seq<Answer>): (r: seq<Answer>)
    ensures |r| == |answers|
  {
    seq(|answers|, i requires 0 <= i < |answers| =>
      Answer(answers[i].chunk, Some(if answers[i].documents.Some? then answers[i].documents.value else [])))
  }

  lemma {:induction false} EmptiedRun(total: nat, answers: seq<Answer>)
    ensures RunFetch(total, Emptied(answers)) == RunFetch(total, answers)
    decreases |answers|
  {
    if answers != [] {
      var n := |answers| - 1;
      EmptiedRun(total, answers[..n]);
      assert Emptied(answers)[..n] == Emptied(answers[..n]);
    }
  }

  /** The completion cannot tell failures from missing organisations: it sees what it would see if no query had failed
      on a collection without the organisations of the failed chunks. */
  lemma CannotTell(db: map<Id, Organisation>, ids: seq<Id>, uniq: seq<Id>, answers: seq<Answer>)
    requires ValidDb(db) && ValidAnswers(db, Chunked(uniq, 10), answers)
    requires Distinct(uniq) && |answers| == |Chunked(uniq, 10)|
    ensures ValidDb(Visible(db, Chunked(uniq, 10), answers))
    ensures ValidAnswers(Visible(db, Chunked(uniq, 10), answers), Chunked(uniq, 10), Emptied(answers))
    ensures Completions(ids, uniq, Emptied(answers)) == Completions(ids, uniq, answers)
  {
    hide ChunksFrom, RunFetch;
    var chunks := Chunked(uniq, 10);
    EmptiedRun(|chunks|, answers);
    var seen := Visible(db, chunks, answers);
    forall i | 0 <= i < |answers| ensures ValidAnswer(seen, chunks, Emptied(answers)[i]) {
      var a := answers[i];
      assert ValidAnswer(db, chunks, a);
      forall id | id in chunks[a.chunk] && id in seen ensures a.documents.Some? {
        var j :| 0 <= j < |answers| && answers[j].documents.Some? && answers[j].chunk < |chunks| &&
            id in chunks[answers[j].chunk];
        if a.chunk <= answers[j].chunk { ChunksDisjoint(uniq, 0, 10, a.chunk, answers[j].chunk, id); }
        else { ChunksDisjoint(uniq, 0, 10, answers[j].chunk, a.chunk, id); }
        assert j == i;
      }
    }
  }

  /** What lies in a chunk from `start` on lies at a position from `start` on. */
  lemma ChunkPosition<T>(xs: seq<T>, start: nat, size: nat, k: nat, x: T) returns (p: nat)
    requires size > 0 && k < |ChunksFrom(xs, start, size)| && x in ChunksFrom(xs, start, size)[k]
    ensures start <= p < |xs| && xs[p] == x
  {
    hide ChunksFrom, Flatten;
    ChunksFromPartition(xs, start, size);
    InSomeChunk(ChunksFrom(xs, start, size), x);
    var q :| 0 <= q < |xs[start..]| && xs[start..][q] == x;
    p := start + q;
  }

  /** An id lies in one chunk only. */
  lemma {:induction false} ChunksDisjoint<T>(xs: seq<T>, start: nat, size: nat, j: nat, k: nat, x: T)
    requires size > 0 && Distinct(xs) && j <= k < |ChunksFrom(xs, start, size)|
    requires x in ChunksFrom(xs, start, size)[j] && x in ChunksFrom(xs, start, size)[k]
    ensures j == k
    decreases |xs| - start
  {
    hide Distinct;
    if j > 0 {
      ChunksDisjoint(xs, start + size, size, j - 1, k - 1, x);
    } else if k > 0 {
      var p := ChunkPosition(xs, start + size, size, k - 1, x);
      var first := ChunksFrom(xs, start, size)[0];
      var q :| 0 <= q < |first| && first[q] == x;
      assert xs[start + q] == x;
      SamePosition(xs, start + q, p);
    }
  }

  lemma SamePosition<T>(xs: seq<T>, p: nat, q: nat)
    requires Distinct(xs) && p < |xs| && q < |xs| && xs[p] == xs[q]
    ensures p == q
  {}

  // ---------------------------------------------------------------- the join

  /** The stored donates whose organisation exists, in stored order. */
  function Existing(refs: seq<DonateRef>, db: map<Id, Organisation>): seq<Donate> {
    if refs == [] then []
    else
      var front, last := Existing(refs[..|refs| - 1], db), refs[|refs| - 1];
      if last.organisationId in db then front + [Donate(last.id, last.amount, db[last.organisationId])] else front
  }

  /** The completion of fetchDonates: index the organisations by id, then keep the donates that have one. */
  method JoinDonates(refs: seq<DonateRef>, organisations: seq<Organisation>, ghost db: map<Id, Organisation>)
    returns (result: seq<Donate>)
    requires ValidDb(db) && forall o | o in organisations :: o.id in db && db[o.id] == o
    requires forall i | 0 <= i < |refs| && refs[i].organisationId in db :: db[refs[i].organisationId] in organisations
    ensures result == Existing(refs, db)
  {
    var orgsDict: map<Id, Organisation> := map[];
    for i := 0 to |organisations|
      invariant forall id | id in orgsDict :: id in db && orgsDict[id] == db[id]
      invariant forall j | 0 <= j < i :: organisations[j].id in orgsDict
    {
      assert organisations[i] in organisations;
      orgsDict := orgsDict[organisations[i].id := organisations[i]];
    }
    result := [];
    for i := 0 to |refs|
      invariant result == Existing(refs[..i], db)
    {
      assert refs[..i + 1][..i] == refs[..i];
      var ref := refs[i];
      if ref.organisationId in db {
        var j :| 0 <= j < |organisations| && organisations[j] == db[ref.organisationId];
        assert organisations[j].id == ref.organisationId by { assert organisations[j] in organisations; }
      }
      if ref.organisationId in orgsDict {
        result := result + [Donate(ref.id, ref.amount, orgsDict[ref.organisationId])];
      }
    }
    assert refs[..|refs|] == refs;
  }

  function OrganisationIds(refs: seq<DonateRef>): seq<Id> {
    seq(|refs|, i requires 0 <= i < |refs| => refs[i].organisationId)
  }

  /** fetchDonates once the refs are known: whatever order `uniq` gives the distinct organisation ids, in whatever order
      the chunk queries answer and whichever of them fail, the donates delivered are, in stored order, those whose
      organisation exists and lies in a chunk whose query succeeded. The others are dropped without notice. */
  method FetchDonates(refs: seq<DonateRef>, uniq: seq<Id>, answers: seq<Answer>, ghost db: map<Id, Organisation>)
    returns (result: seq<Donate>)
    requires ValidDb(db) && forall id :: id in uniq <==> id in OrganisationIds(refs)
    requires ValidAnswers(db, Chunked(uniq, 10), answers) && |answers| == |Chunked(uniq, 10)|
    ensures result == Existing(refs, Visible(db, Chunked(uniq, 10), answers))
  {
    hide Chunked, ValidAnswers, OnSnapshot, Reached;
    if refs == [] { return []; }
    ghost var ids := OrganisationIds(refs);
    assert ids != [];
    var fetch := new OrganisationFetch(|Chunked(uniq, 10)|);
    for i := 0 to |answers|
      invariant fetch.State() == RunFetch(|Chunked(uniq, 10)|, answers[..i])
    {
      assert answers[..i + 1][..i] == answers[..i];
      fetch.Snapshot(answers[i]);
    }
    assert answers[..|answers|] == answers;
    FetchCompletes(db, ids, uniq, answers);
    FetchInvariant(|Chunked(uniq, 10)|, answers);
    assert Completions(ids, uniq, answers) == [fetch.result];
    ghost var seen := Visible(db, Chunked(uniq, 10), answers);
    forall i | 0 <= i < |refs| && refs[i].organisationId in seen ensures seen[refs[i].organisationId] in fetch.result {
      assert ids[i] == refs[i].organisationId;
    }
    result := JoinDonates(refs, fetch.result, seen);
  }

  lemma {:induction false} ExistingAgree(refs: seq<DonateRef>, db: map<Id, Organisation>, seen: map<Id, Organisation>)
    requires forall id | id in seen :: id in db && seen[id] == db[id]
    ensures |Existing(refs, seen)| <= |Existing(refs, db)|
    ensures Existing(refs, seen) == Existing(refs, db) <==>
            forall i | 0 <= i < |refs| && refs[i].organisationId in db :: refs[i].organisationId in seen
    ensures Existing(refs, seen) == Existing(refs, db) <==> |Existing(refs, seen)| == |Existing(refs, db)|
    decreases |refs|
  {
    if refs != [] {
      var n := |refs| - 1;
      ExistingAgree(refs[..n], db, seen);
      var a, b := Existing(refs[..n], seen), Existing(refs[..n], db);
      var last := refs[n].organisationId;
      if last in db {
        var d := Donate(refs[n].id, refs[n].amount, db[last]);
        if last in seen {
          assert Existing(refs, seen) == a + [d] && Existing(refs, db) == b + [d];
          if a + [d] == b + [d] { assert a == (a + [d])[..|a|] == (b + [d])[..|b|] == b; }
        } else {
          assert |Existing(refs, seen)| < |Existing(refs, db)|;
        }
      }
      forall i | 0 <= i < n ensures refs[..n][i] == refs[i] {}
    }
  }

  /** So fetchDonates delivers all donates whose organisation exists if and only if each such organisation lies in a
      chunk whose query succeeded. */
  lemma DonatesCompleteIff(refs: seq<DonateRef>, db: map<Id, Organisation>, chunks: seq<seq<Id>>, answers: seq<Answer>)
    ensures Existing(refs, Visible(db, chunks, answers)) == Existing(refs, db) <==>
            forall i | 0 <= i < |refs| && refs[i].organisationId in db ::
                Reached(chunks, answers, refs[i].organisationId)
  {
    hide Reached, Existing;
    ExistingAgree(refs, db, Visible(db, chunks, answers));
  }
}
