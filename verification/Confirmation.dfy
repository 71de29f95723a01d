/** Confirming a monthly donation: one write per row, their answers in any order, the completion barrier, and what the
    store holds when all have answered. */
module Confirmation {
  import opened Common
  import opened Bucket
  import opened Barrier

  /** A document of the user's donates collection. */
  datatype Doc = Doc(amount: Option<int>, organisation: Option<Id>)

  /** The loop has issued the rows below `issued`; of these, `open` still wait for their answer. */
  datatype Model = Model(rows: seq<Row>, issued: nat, open: set<nat>, succeeded: set<nat>, failed: set<nat>,
                         barrier: Barrier, store: map<Id, Doc>, written: map<nat, Id>)

  /** The next turn of the loop, or the answer to the write of a row; `newId` is the id the store picks when it adds. */
  datatype Event = Issue | Answer(row: nat, success: bool, newId: Id)

  function Start(rows: seq<Row>, store: map<Id, Doc>): Model {
    Model(rows, 0, {}, {}, {}, Begin(|rows|), store, map[])
  }

  /** A row without a donate and without an amount needs no write. */
  predicate NeedsNoWrite(row: Row) { row.donateId.None? && row.amount <= 0 }

  predicate Adds(row: Row) { row.donateId.None? && row.amount > 0 }

  predicate IsRowId(rows: seq<Row>, id: Id) {
    exists i :: 0 <= i < |rows| && rows[i].donateId == Some(id)
  }

  /** The store picks ids that name no document and no donate the rows refer to. */
  predicate Enabled(m: Model, e: Event) {
    match e
    case Issue => m.issued < |m.rows|
    case Answer(i, success, newId) =>
      i in m.open && i < |m.rows| &&
      (success && Adds(m.rows[i]) ==> newId !in m.store && !IsRowId(m.rows, newId))
  }

  /** setData(merge: true): the amount is overwritten, other fields stay. */
  function Edited(store: map<Id, Doc>, id: Id, amount: int): Doc {
    if id in store then store[id].(amount := Some(amount)) else Doc(Some(amount), None)
  }

  /** editDonate, deleteDonate or addDonate. */
  function Write(store: map<Id, Doc>, row: Row, newId: Id): map<Id, Doc> {
    match row.donateId
    case Some(id) => if row.amount > 0 then store[id := Edited(store, id, row.amount)] else store - {id}
    case None => store[newId := Doc(Some(row.amount), Some(row.organisation))]
  }

  function Next(m: Model, e: Event): Model
    requires Enabled(m, e)
  {
    match e
    case Issue =>
      if NeedsNoWrite(m.rows[m.issued]) then
        m.(issued := m.issued + 1, succeeded := m.succeeded + {m.issued}, barrier := Report(m.barrier, true))
      else m.(issued := m.issued + 1, open := m.open + {m.issued})
    case Answer(i, success, newId) =>
      var m' := m.(open := m.open - {i}, barrier := Report(m.barrier, success));
      if !success then m'.(failed := m.failed + {i})
      else m'.(succeeded := m.succeeded + {i}, store := Write(m.store, m.rows[i], newId),
               written := if Adds(m.rows[i]) then m.written[i := newId] else m.written)
  }

  function After(rows: seq<Row>, store: map<Id, Doc>, events: seq<Event>): Option<Model>
    decreases |events|
  {
    if events == [] then Some(Start(rows, store))
    else
      var before := After(rows, store, events[..|events| - 1]);
      var e := events[|events| - 1];
      if before.Some? && Enabled(before.value, e) then Some(Next(before.value, e)) else None
  }

  /** The loop is over and every write has answered. */
  predicate Finished(m: Model) { m.issued == |m.rows| && m.open == {} }

  // ---------------------------------------------------------------- the barrier

  /** Each issued row is waiting, done or failed, and only one of these. */
  ghost predicate Partitioned(m: Model) {
    && m.issued <= |m.rows|
    && (forall i :: i in m.open || i in m.succeeded || i in m.failed <==> 0 <= i < m.issued)
    && m.open !! m.succeeded && m.open !! m.failed && m.succeeded !! m.failed
  }

  /** The counter counts the rows that are done or failed, and the handler fired when it should. */
  ghost predicate Tallied(m: Model) {
    && m.barrier.total == |m.rows|
    && m.barrier.count == |m.succeeded| + |m.failed|
    && m.barrier.count + |m.open| == m.issued <= |m.rows|
    && m.barrier.isError == (m.failed != {})
    && m.barrier.fired == if m.barrier.count == |m.rows| && m.rows != [] then [m.failed == {}] else []
  }

  ghost predicate Counted(m: Model) { Partitioned(m) && Tallied(m) }

  /** One more report, while not all have come in. */
  lemma ReportTallies(m: Model, m': Model, success: bool)
    requires Tallied(m) && m.barrier.count < |m.rows| && m'.rows == m.rows
    requires m'.barrier == Report(m.barrier, success)
    requires |m'.succeeded| + |m'.failed| == m.barrier.count + 1
    requires m'.barrier.count + |m'.open| == m'.issued <= |m.rows|
    requires (m'.failed != {}) == (m.failed != {} || !success)
    ensures Tallied(m')
  {}

  lemma CountedIssue(m: Model)
    requires Counted(m) && Enabled(m, Issue)
    ensures Counted(Next(m, Issue))
  {
    hide NeedsNoWrite, Write, Tallied, Report;
    var i, m' := m.issued, Next(m, Issue);
    assert i !in m.open && i !in m.succeeded && i !in m.failed;
    assert Partitioned(m');
    TallyFacts(m);
    if NeedsNoWrite(m.rows[i]) {
      assert |m'.succeeded| == |m.succeeded| + 1;
      ReportCount(m.barrier, true);
      ReportTallies(m, m', true);
    } else {
      assert |m'.open| == |m.open| + 1;
      SameTally(m, m');
    }
  }

  lemma TallyFacts(m: Model)
    requires Tallied(m)
    ensures m.barrier.count == |m.succeeded| + |m.failed| && m.barrier.count + |m.open| == m.issued
  {}

  lemma ReportCount(b: Barrier, success: bool)
    ensures Report(b, success).count == b.count + 1
  {}

  lemma SameTally(m: Model, m': Model)
    requires Tallied(m) && m'.rows == m.rows && m'.barrier == m.barrier
    requires m'.succeeded == m.succeeded && m'.failed == m.failed
    requires m'.barrier.count + |m'.open| == m'.issued <= |m.rows|
    ensures Tallied(m')
  {}

  lemma CountedAnswer(m: Model, i: nat, success: bool, newId: Id)
    requires Counted(m) && Enabled(m, Answer(i, success, newId))
    ensures Counted(Next(m, Answer(i, success, newId)))
  {
    hide Write, Adds, IsRowId, Tallied, Report;
    var m' := Next(m, Answer(i, success, newId));
    assert i !in m.succeeded && i !in m.failed;
    assert Partitioned(m');
    TallyFacts(m);
    assert |m'.open| == |m.open| - 1;
    if success { assert |m'.succeeded| == |m.succeeded| + 1; } else { assert |m'.failed| == |m.failed| + 1; }
    ReportCount(m.barrier, success);
    ReportTallies(m, m', success);
  }

  lemma CountedNext(m: Model, e: Event)
    requires Counted(m) && Enabled(m, e)
    ensures Counted(Next(m, e))
  {
    hide Counted;
    match e
    case Issue => CountedIssue(m);
    case Answer(i, success, newId) => CountedAnswer(m, i, success, newId);
  }

  // ---------------------------------------------------------------- the store

  /** No two rows carry the same id, unless both delete it. */
  predicate SeparateIds(rows: seq<Row>) {
    forall i, j | 0 <= i < j < |rows| && rows[i].donateId.Some? && (rows[i].amount > 0 || rows[j].amount > 0) ::
      rows[i].donateId != rows[j].donateId
  }

  /** A document no succeeded write concerned. */
  ghost predicate Untouched(m: Model, id: Id) {
    (forall i | i in m.succeeded && 0 <= i < |m.rows| :: m.rows[i].donateId != Some(id)) && id !in m.written.Values
  }

  ghost predicate EditsHold(m: Model, base: map<Id, Doc>) {
    forall i | i in m.succeeded && 0 <= i < |m.rows| && m.rows[i].donateId.Some? ::
      var id := m.rows[i].donateId.value;
      if m.rows[i].amount > 0 then
        id in m.store &&
        m.store[id] == Doc(Some(m.rows[i].amount), if id in base then base[id].organisation else None)
      else id !in m.store
  }

  ghost predicate AddsHold(m: Model, base: map<Id, Doc>) {
    && (forall i :: i in m.written <==> i in m.succeeded && i < |m.rows| && Adds(m.rows[i]))
    && (forall i | i in m.written ::
          m.written[i] in m.store && m.written[i] !in base && !IsRowId(m.rows, m.written[i]) &&
          m.store[m.written[i]] == Doc(Some(m.rows[i].amount), Some(m.rows[i].organisation)))
    && (forall i, j | i in m.written && j in m.written && i != j :: m.written[i] != m.written[j])
  }

  ghost predicate RestHolds(m: Model, base: map<Id, Doc>) {
    forall id | Untouched(m, id) :: (id in m.store <==> id in base) && (id in base ==> m.store[id] == base[id])
  }

  /** The store is the initial one with exactly the succeeded writes done. */
  ghost predicate StoreHolds(m: Model, base: map<Id, Doc>) {
    EditsHold(m, base) && AddsHold(m, base) && RestHolds(m, base)
  }

  /** Rows whose writes change nothing: the account of the store is the same. */
  lemma SameStore(m: Model, m': Model, base: map<Id, Doc>)
    requires StoreHolds(m, base)
    requires m'.rows == m.rows && m'.store == m.store && m'.written == m.written && m.succeeded <= m'.succeeded
    requires forall i | i in m'.succeeded && i !in m.succeeded && i < |m.rows| :: NeedsNoWrite(m.rows[i])
    ensures StoreHolds(m', base)
  {
    hide Edited, IsRowId;
    assert EditsHold(m', base);
    assert AddsHold(m', base);
    forall id | Untouched(m', id)
      ensures (id in m'.store <==> id in base) && (id in base ==> m'.store[id] == base[id])
    {
      assert Untouched(m, id);
    }
  }

  lemma IssueKeeps(m: Model, base: map<Id, Doc>)
    requires StoreHolds(m, base) && Enabled(m, Issue)
    ensures StoreHolds(Next(m, Issue), base)
  {
    hide StoreHolds;
    SameStore(m, Next(m, Issue), base);
  }

  lemma FailureKeeps(m: Model, base: map<Id, Doc>, i: nat, newId: Id)
    requires StoreHolds(m, base) && Enabled(m, Answer(i, false, newId))
    ensures StoreHolds(Next(m, Answer(i, false, newId)), base)
  {
    hide StoreHolds;
    SameStore(m, Next(m, Answer(i, false, newId)), base);
  }

  lemma NotYetTouched(m: Model, base: map<Id, Doc>, i: nat)
    requires Counted(m) && SeparateIds(m.rows) && AddsHold(m, base) && i in m.open && i < |m.rows|
    requires m.rows[i].donateId.Some? && m.rows[i].amount > 0
    ensures Untouched(m, m.rows[i].donateId.value)
  {
    var id := m.rows[i].donateId.value;
    assert IsRowId(m.rows, id);
    forall j | j in m.succeeded && 0 <= j < |m.rows| ensures m.rows[j].donateId != Some(id) { assert j != i; }
  }

  lemma WrittenRest(m: Model, base: map<Id, Doc>, i: nat, newId: Id)
    requires StoreHolds(m, base) && Enabled(m, Answer(i, true, newId)) && m.rows[i].donateId.Some?
    ensures RestHolds(Next(m, Answer(i, true, newId)), base)
  {
    hide IsRowId, EditsHold, AddsHold, Edited;
    var m' := Next(m, Answer(i, true, newId));
    forall x | Untouched(m', x) ensures (x in m'.store <==> x in base) && (x in base ==> m'.store[x] == base[x]) {
      assert m.rows[i].donateId != Some(x);
      assert Untouched(m, x);
    }
  }

  lemma WrittenAdds(m: Model, base: map<Id, Doc>, i: nat, newId: Id)
    requires StoreHolds(m, base) && Enabled(m, Answer(i, true, newId)) && m.rows[i].donateId.Some?
    ensures AddsHold(Next(m, Answer(i, true, newId)), base)
  {
    hide IsRowId, EditsHold, RestHolds, Edited;
    RowIdIs(m.rows, i);
  }

  lemma WrittenEdits(m: Model, base: map<Id, Doc>, i: nat, newId: Id)
    requires Counted(m) && SeparateIds(m.rows) && StoreHolds(m, base) && Enabled(m, Answer(i, true, newId))
    requires m.rows[i].donateId.Some?
    ensures EditsHold(Next(m, Answer(i, true, newId)), base)
  {
    hide IsRowId, Counted;
    var m' := Next(m, Answer(i, true, newId));
    var id := m.rows[i].donateId.value;
    if m.rows[i].amount > 0 {
      NotYetTouched(m, base, i);
      assert Edited(m.store, id, m.rows[i].amount) == Edited(base, id, m.rows[i].amount);
    }
    forall j | j in m'.succeeded && 0 <= j < |m.rows| && m.rows[j].donateId.Some?
      ensures var jd := m.rows[j].donateId.value;
              if m.rows[j].amount > 0 then jd in m'.store && m'.store[jd] == Edited(base, jd, m.rows[j].amount)
              else jd !in m'.store
    {
      if j != i && (m.rows[i].amount > 0 || m.rows[j].amount > 0) { assert m.rows[j].donateId.value != id; }
    }
  }

  lemma DonateWritten(m: Model, base: map<Id, Doc>, i: nat, newId: Id)
    requires Counted(m) && SeparateIds(m.rows) && StoreHolds(m, base) && Enabled(m, Answer(i, true, newId))
    requires m.rows[i].donateId.Some?
    ensures StoreHolds(Next(m, Answer(i, true, newId)), base)
  {
    hide Counted, SeparateIds, EditsHold, AddsHold, RestHolds, Next;
    WrittenRest(m, base, i, newId);
    WrittenAdds(m, base, i, newId);
    WrittenEdits(m, base, i, newId);
  }

  lemma StillOpen(m: Model, i: nat)
    requires Counted(m) && i in m.open
    ensures i !in m.succeeded && i < |m.rows|
  {}

  lemma NewIsFresh(m: Model, base: map<Id, Doc>, i: nat, newId: Id)
    requires StoreHolds(m, base) && Enabled(m, Answer(i, true, newId)) && Adds(m.rows[i])
    ensures newId !in base
  {
    hide Edited, EditsHold;
    assert Untouched(m, newId);
  }

  lemma AddedAdds(m: Model, base: map<Id, Doc>, i: nat, newId: Id)
    requires Counted(m) && StoreHolds(m, base) && Enabled(m, Answer(i, true, newId)) && Adds(m.rows[i])
    ensures AddsHold(Next(m, Answer(i, true, newId)), base)
  {
    hide IsRowId, EditsHold, RestHolds, Counted, Edited;
    var m' := Next(m, Answer(i, true, newId));
    StillOpen(m, i);
    NewIsFresh(m, base, i, newId);
    forall j | j in m'.written
      ensures m'.written[j] in m'.store && m'.written[j] !in base && !IsRowId(m.rows, m'.written[j]) &&
              m'.store[m'.written[j]] == Doc(Some(m.rows[j].amount), Some(m.rows[j].organisation))
      ensures j != i ==> m'.written[j] != newId
    {
      if j != i { assert m'.written[j] == m.written[j] && m.written[j] in m.store; }
    }
    forall j, k | j in m'.written && k in m'.written && j != k ensures m'.written[j] != m'.written[k] {
      if j != i && k != i { assert m.written[j] != m.written[k]; }
    }
  }

  lemma AddedRest(m: Model, base: map<Id, Doc>, i: nat, newId: Id)
    requires Counted(m) && StoreHolds(m, base) && Enabled(m, Answer(i, true, newId)) && Adds(m.rows[i])
    ensures RestHolds(Next(m, Answer(i, true, newId)), base)
  {
    hide IsRowId, Edited, EditsHold, Counted;
    var m' := Next(m, Answer(i, true, newId));
    StillOpen(m, i);
    assert m'.written[i] == newId && newId in m'.written.Values;
    forall x | Untouched(m', x) ensures (x in m'.store <==> x in base) && (x in base ==> m'.store[x] == base[x]) {
      assert x != newId;
      forall k | k in m.written ensures m.written[k] != x { assert m'.written[k] == m.written[k]; }
      assert Untouched(m, x);
    }
  }

  lemma AddedEdits(m: Model, base: map<Id, Doc>, i: nat, newId: Id)
    requires StoreHolds(m, base) && Enabled(m, Answer(i, true, newId)) && Adds(m.rows[i])
    ensures EditsHold(Next(m, Answer(i, true, newId)), base)
  {
    hide IsRowId, Edited;
    var m' := Next(m, Answer(i, true, newId));
    forall j | j in m'.succeeded && 0 <= j < |m.rows| && m.rows[j].donateId.Some?
      ensures m.rows[j].donateId.value != newId
    {
      RowIdIs(m.rows, j);
    }
  }

  lemma DonateAdded(m: Model, base: map<Id, Doc>, i: nat, newId: Id)
    requires Counted(m) && StoreHolds(m, base) && Enabled(m, Answer(i, true, newId))
    requires Adds(m.rows[i])
    ensures StoreHolds(Next(m, Answer(i, true, newId)), base)
  {
    hide Counted, EditsHold, AddsHold, RestHolds, Next, Enabled;
    AddedAdds(m, base, i, newId);
    AddedRest(m, base, i, newId);
    AddedEdits(m, base, i, newId);
  }

  lemma RowIdIs(rows: seq<Row>, j: nat)
    requires j < |rows| && rows[j].donateId.Some?
    ensures IsRowId(rows, rows[j].donateId.value)
  {}

  lemma OnlyWritesAwait(m: Model, e: Event)
    requires Enabled(m, e) && forall i | i in m.open && i < |m.rows| :: !NeedsNoWrite(m.rows[i])
    ensures forall i | i in Next(m, e).open && i < |m.rows| :: !NeedsNoWrite(m.rows[i])
  {}

  /** What every reachable state satisfies. */
  ghost predicate Inv(m: Model, base: map<Id, Doc>) {
    Counted(m) && StoreHolds(m, base) && forall i | i in m.open && i < |m.rows| :: !NeedsNoWrite(m.rows[i])
  }

  lemma NextKeeps(m: Model, base: map<Id, Doc>, e: Event)
    requires SeparateIds(m.rows) && Inv(m, base) && Enabled(m, e)
    ensures Inv(Next(m, e), base)
  {
    hide Counted, StoreHolds, SeparateIds;
    CountedNext(m, e);
    OnlyWritesAwait(m, e);
    match e
    case Issue => IssueKeeps(m, base);
    case Answer(i, success, newId) =>
      if !success { FailureKeeps(m, base, i, newId); }
      else if m.rows[i].donateId.Some? { DonateWritten(m, base, i, newId); }
      else { DonateAdded(m, base, i, newId); }
  }

  lemma StartInv(rows: seq<Row>, base: map<Id, Doc>)
    ensures Inv(Start(rows, base), base)
  {}

  lemma NextRows(m: Model, e: Event)
    requires Enabled(m, e)
    ensures Next(m, e).rows == m.rows
  {}

  lemma {:induction false} RunKeeps(rows: seq<Row>, base: map<Id, Doc>, events: seq<Event>)
    requires SeparateIds(rows) && After(rows, base, events).Some?
    ensures Inv(After(rows, base, events).value, base) && After(rows, base, events).value.rows == rows
    decreases |events|
  {
    hide Inv, Next, Enabled, SeparateIds;
    if events == [] {
      StartInv(rows, base);
    } else {
      var n := |events| - 1;
      RunKeeps(rows, base, events[..n]);
      NextKeeps(After(rows, base, events[..n]).value, base, events[n]);
      NextRows(After(rows, base, events[..n]).value, events[n]);
    }
  }

  /** The counter does not depend on what the rows hold. */
  lemma {:induction false} RunCounted(rows: seq<Row>, base: map<Id, Doc>, events: seq<Event>)
    requires After(rows, base, events).Some?
    ensures Counted(After(rows, base, events).value) && After(rows, base, events).value.rows == rows
    decreases |events|
  {
    hide Counted, Next, Enabled;
    if events == [] {
      StartCounted(rows, base);
    } else {
      var n := |events| - 1;
      RunCounted(rows, base, events[..n]);
      CountedNext(After(rows, base, events[..n]).value, events[n]);
      NextRows(After(rows, base, events[..n]).value, events[n]);
    }
  }

  lemma StartCounted(rows: seq<Row>, base: map<Id, Doc>)
    ensures Counted(Start(rows, base))
  {}

  /** In every order of answers, also of answers that come while the loop still runs: the handler does not fire before
      every row is dealt with; then it has fired exactly once, with success exactly when no write failed; and for an
      empty list it never fires. */
  lemma HandlerFiresOnce(rows: seq<Row>, base: map<Id, Doc>, events: seq<Event>)
    requires After(rows, base, events).Some?
    ensures var m := After(rows, base, events).value;
            m.barrier.fired == if Finished(m) && rows != [] then [m.failed == {}] else []
  {
    hide After;
    RunCounted(rows, base, events);
    var m := After(rows, base, events).value;
    if m.barrier.count == |rows| { assert |m.open| == 0; }
  }

  // ---------------------------------------------------------------- the view controller

  /** sendToUpdateDonates: the captured counter and flag, the loop's position, and the user's collection. */
  class Confirm {
    const donateItems: seq<Row>
    const counter: Counter
    var index: nat
    var collection: map<Id, Doc>
    ghost var open: set<nat>
    ghost var succeeded: set<nat>
    ghost var failed: set<nat>
    ghost var written: map<nat, Id>

    ghost function State(): Model
      reads this, counter
    {
      Model(donateItems, index, open, succeeded, failed, counter.State(), collection, written)
    }

    constructor (donateItems: seq<Row>, collection: map<Id, Doc>)
      ensures State() == Start(donateItems, collection) && fresh(counter)
    {
      this.donateItems, this.collection := donateItems, collection;
      counter := new Counter(|donateItems|);
      index := 0;
      open, succeeded, failed, written := {}, {}, {}, map[];
    }

    /** The next turn of the loop over donateItems. */
    method IssueNext()
      requires Enabled(State(), Issue)
      modifies this, counter
      ensures State() == Next(old(State()), Issue)
    {
      hide Report;
      var item := donateItems[index];
      if item.donateId.Some? || item.amount > 0 {
        open := open + {index};
      } else {
        succeeded := succeeded + {index};
        var _ := counter.OnCompletion(true);
      }
      index := index + 1;
    }

    /** The store answers the write of row `i`; a successful one has taken effect. */
    method OnAnswer(i: nat, success: bool, newId: Id)
      requires Enabled(State(), Answer(i, success, newId))
      modifies this, counter
      ensures State() == Next(old(State()), Answer(i, success, newId))
    {
      hide IsRowId, Report, Write, Adds;
      open := open - {i};
      if success {
        TakeEffect(i, newId);
        succeeded := succeeded + {i};
      } else {
        failed := failed + {i};
      }
      var _ := counter.OnCompletion(success);
    }

    /** editDonate, deleteDonate or addDonate in the user's collection. */
    method TakeEffect(i: nat, newId: Id)
      requires i < |donateItems|
      modifies this`collection, this`written
      ensures collection == Write(old(collection), donateItems[i], newId)
      ensures written == if Adds(donateItems[i]) then old(written)[i := newId] else old(written)
    {
      var item := donateItems[i];
      match item.donateId {
        case Some(id) =>
          if item.amount > 0 {
            collection := collection[id := if id in collection then collection[id].(amount := Some(item.amount))
                                           else Doc(Some(item.amount), None)];
          } else {
            collection := collection - {id};
          }
        case None =>
          collection := collection[newId := Doc(Some(item.amount), Some(item.organisation))];
          if item.amount > 0 { written := written[i := newId]; }
      }
    }
  }
}
