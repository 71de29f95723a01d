/** What a monthly confirmation leaves in the store, from the load of the bucket on. */
module Reconciliation {
  import opened Common
  import opened Bucket
  import opened Barrier
  import opened Confirmation

  /** The donates were loaded from the store: distinct documents, one per organisation. */
  ghost predicate LoadedFrom(donates: seq<Donate>, base: map<Id, Doc>) {
    && UniqueOrganisations(donates)
    && (forall i, j | 0 <= i < j < |donates| :: donates[i].id != donates[j].id)
    && forall i | 0 <= i < |donates| ::
         donates[i].id in base && base[donates[i].id] == Doc(Some(donates[i].amount), Some(donates[i].organisation))
  }

  /** Where the store keeps a row with a positive amount. */
  function Home(m: Model, i: nat): Id
    requires i < |m.rows|
  {
    if m.rows[i].donateId.Some? then m.rows[i].donateId.value else if i in m.written then m.written[i] else ""
  }

  ghost predicate PositiveRow(m: Model, i: nat) { i < |m.rows| && m.rows[i].amount > 0 }

  /** The document is that of the row. */
  predicate Holds(m: Model, i: nat)
    requires i < |m.rows|
  {
    Home(m, i) in m.store && m.store[Home(m, i)] == Doc(Some(m.rows[i].amount), Some(m.rows[i].organisation))
  }

  /** The amounts the store holds for the first `n` rows. */
  function StoredSum(m: Model, n: nat): int
    requires n <= |m.rows|
  {
    if n == 0 then 0
    else StoredSum(m, n - 1) +
         if m.rows[n - 1].amount > 0 && Home(m, n - 1) in m.store && m.store[Home(m, n - 1)].amount.Some?
         then m.store[Home(m, n - 1)].amount.value else 0
  }

  /** The document belongs to a row with a positive amount. */
  ghost predicate Owned(m: Model, id: Id) {
    exists i: nat :: PositiveRow(m, i) && Home(m, i) == id
  }

  /** The document was never loaded and is unchanged. */
  ghost predicate LeftAlone(m: Model, base: map<Id, Doc>, donates: seq<Donate>, id: Id) {
    id in base && id in m.store && m.store[id] == base[id] && forall k | 0 <= k < |donates| :: donates[k].id != id
  }

  /** What the store must hold: exactly the rows of the table with a positive amount, each once, summing to the amount
      to donate, beside documents that were never loaded. Of these all are left that no row names. */
  ghost predicate Reconciled(m: Model, base: map<Id, Doc>, donates: seq<Donate>, table: seq<Row>, donateAmount: int) {
    && table <= m.rows
    && (forall i: nat | PositiveRow(m, i) :: i < |table| && Holds(m, i))
    && (forall i: nat, j: nat | PositiveRow(m, i) && PositiveRow(m, j) && i != j :: Home(m, i) != Home(m, j))
    && (forall id | id in m.store :: Owned(m, id) || LeftAlone(m, base, donates, id))
    && (forall id | id in base && !IsRowId(m.rows, id) :: id in m.store && m.store[id] == base[id])
    && StoredSum(m, |m.rows|) == donateAmount
  }

  // ---------------------------------------------------------------- rows that name documents

  /** Each row with a positive amount and an id names a document of its own organisation. */
  predicate OwnDocuments(rows: seq<Row>, base: map<Id, Doc>) {
    forall i | 0 <= i < |rows| && rows[i].amount > 0 && rows[i].donateId.Some? ::
      rows[i].donateId.value in base && base[rows[i].donateId.value].organisation == Some(rows[i].organisation)
  }

  /** No row without an amount deletes it. */
  predicate NoneDeleted(rows: seq<Row>) {
    forall i, j | 0 <= i < |rows| && 0 <= j < |rows| && rows[i].amount > 0 && rows[i].donateId.Some? &&
        rows[j].amount <= 0 ::
      rows[i].donateId != rows[j].donateId
  }

  predicate WellNamed(rows: seq<Row>, base: map<Id, Doc>) {
    OwnDocuments(rows, base) && NoneDeleted(rows)
  }

  lemma NamedSeparate(rows: seq<Row>, base: map<Id, Doc>)
    requires UniqueRows(rows) && WellNamed(rows, base)
    ensures SeparateIds(rows)
  {
    forall i, j | 0 <= i < j < |rows| && rows[i].donateId.Some? && (rows[i].amount > 0 || rows[j].amount > 0)
      ensures rows[i].donateId != rows[j].donateId
    {
      assert rows[i].organisation != rows[j].organisation;
    }
  }

  lemma LinkedDonate(rows: seq<Row>, donates: seq<Donate>, i: nat) returns (k: nat)
    requires Linked(rows, donates) && i < |rows| && IdFor(donates, rows[i].organisation).Some?
    ensures k < |donates| && donates[k].organisation == rows[i].organisation && Some(donates[k].id) == rows[i].donateId
  {
    k := FirstDonate(donates, rows[i].organisation).value;
  }

  /** Rows that carry only the ids of their organisations' loaded donates are well named. */
  lemma ConsistentNamed(rows: seq<Row>, donates: seq<Donate>, base: map<Id, Doc>)
    requires Consistent(rows, donates) && LoadedFrom(donates, base)
    ensures WellNamed(rows, base)
  {
    hide IdFor;
    forall i | 0 <= i < |rows| && rows[i].donateId.Some?
      ensures rows[i].donateId.value in base && base[rows[i].donateId.value].organisation == Some(rows[i].organisation)
    {
      var k := LinkedDonate(rows, donates, i);
    }
    forall i, j | 0 <= i < |rows| && 0 <= j < |rows| && rows[i].amount > 0 && rows[i].donateId.Some? &&
        rows[j].amount <= 0
      ensures rows[i].donateId != rows[j].donateId
    {
      OtherRow(rows, i, j);
    }
  }

  lemma OtherRow(rows: seq<Row>, i: nat, j: nat)
    requires UniqueRows(rows) && i < |rows| && j < |rows| && i != j
    ensures rows[i].organisation != rows[j].organisation
  {}

  /** The rows the confirmation adds to the table have amount zero. */
  lemma {:induction false} OnlyTablePositive(table: seq<Row>, donates: seq<Donate>, i: nat)
    requires i < |ToPass(table, donates)| && ToPass(table, donates)[i].amount > 0
    ensures i < |table| && ToPass(table, donates)[i] == table[i]
    decreases |donates|
  {
    hide FirstRow;
    if donates != [] {
      var front := ToPass(table, donates[..|donates| - 1]);
      if i < |front| { OnlyTablePositive(table, donates[..|donates| - 1], i); }
    }
  }

  lemma PassedOwn(table: seq<Row>, donates: seq<Donate>, base: map<Id, Doc>)
    requires OwnDocuments(table, base)
    ensures OwnDocuments(ToPass(table, donates), base)
  {
    hide ToPass;
    var all := ToPass(table, donates);
    forall i | 0 <= i < |all| && all[i].amount > 0 && all[i].donateId.Some?
      ensures all[i].donateId.value in base && base[all[i].donateId.value].organisation == Some(all[i].organisation)
    {
      OnlyTablePositive(table, donates, i);
    }
  }

  /** Nor do they delete what a positive row names. */
  lemma AppendedKeeps(all: seq<Row>, donates: seq<Donate>, base: map<Id, Doc>, i: nat, j: nat)
    requires LoadedFrom(donates, base) && Linked(all, donates) && OwnDocuments(all, base)
    requires i < |all| && j < |all| && all[i].amount > 0 && all[i].donateId.Some? && all[j].amount <= 0
    requires IdFor(donates, all[j].organisation).Some?
    ensures all[i].donateId != all[j].donateId
  {
    hide IdFor;
    OtherRow(all, i, j);
    var k := LinkedDonate(all, donates, j);
  }

  lemma PassedNamed(table: seq<Row>, donates: seq<Donate>, base: map<Id, Doc>)
    requires LoadedFrom(donates, base) && Linked(table, donates) && NonNegative(table)
    ensures WellNamed(ToPass(table, donates), base) <==> WellNamed(table, base)
  {
    hide ToPass, IdFor, Covered, OwnDocuments, Linked, LoadedFrom, Sum;
    assert UniqueOrganisations(donates) by { LoadedUnique(donates, base); }
    HandOver(table, donates);
    var all := ToPass(table, donates);
    if WellNamed(table, base) {
      PassedOwn(table, donates, base);
      forall i, j | 0 <= i < |all| && 0 <= j < |all| && all[i].amount > 0 && all[i].donateId.Some? && all[j].amount <= 0
        ensures all[i].donateId != all[j].donateId
      {
        OnlyTablePositive(table, donates, i);
        if j >= |table| { AppendedKeeps(all, donates, base, i, j); } else { assert all[j] == table[j]; }
      }
    }
    if WellNamed(all, base) { PrefixNamed(table, all, base); }
  }

  lemma PrefixNamed(table: seq<Row>, all: seq<Row>, base: map<Id, Doc>)
    requires table <= all && WellNamed(all, base)
    ensures WellNamed(table, base)
  {
    assert forall i | 0 <= i < |table| :: all[i] == table[i];
  }

  // ---------------------------------------------------------------- well-named rows reconcile

  /** Every row with a positive amount is stored, with its amount and its organisation. */
  lemma PositiveStored(m: Model, base: map<Id, Doc>, i: nat)
    requires Inv(m, base) && Finished(m) && m.failed == {} && OwnDocuments(m.rows, base) && PositiveRow(m, i)
    ensures Holds(m, i)
  {
    assert i in m.succeeded;
    if m.rows[i].donateId.None? { assert i in m.written; }
  }

  /** Different rows are stored in different documents. */
  lemma HomesDiffer(m: Model, base: map<Id, Doc>, i: nat, j: nat)
    requires Inv(m, base) && Finished(m) && m.failed == {} && SeparateIds(m.rows)
    requires PositiveRow(m, i) && PositiveRow(m, j) && i != j
    ensures Home(m, i) != Home(m, j)
  {
    assert i in m.succeeded && j in m.succeeded;
    if m.rows[i].donateId.Some? { RowIdIs(m.rows, i); }
    if m.rows[j].donateId.Some? { RowIdIs(m.rows, j); }
    assert m.rows[i].donateId.None? ==> i in m.written;
    assert m.rows[j].donateId.None? ==> j in m.written;
  }

  /** Every document of the store is the home of such a row, or one that was not loaded, unchanged. */
  lemma NothingElse(m: Model, base: map<Id, Doc>, donates: seq<Donate>, id: Id)
    requires Inv(m, base) && Finished(m) && m.failed == {}
    requires Linked(m.rows, donates) && Covered(m.rows, donates) && LoadedFrom(donates, base) && id in m.store
    ensures Owned(m, id) || LeftAlone(m, base, donates, id)
  {
    hide FirstRow, FirstDonate;
    if !Untouched(m, id) {
      if id in m.written.Values {
        var i :| i in m.written && m.written[i] == id;
        assert PositiveRow(m, i) && Home(m, i) == id;
      } else {
        var i :| i in m.succeeded && 0 <= i < |m.rows| && m.rows[i].donateId == Some(id);
        assert PositiveRow(m, i) && Home(m, i) == id;
      }
    } else {
      forall k | 0 <= k < |donates| ensures donates[k].id != id {
        var r := FirstRow(m.rows, donates[k].organisation).value;
        FirstDonateFinds(donates, k);
        assert m.rows[r].donateId == Some(donates[k].id);
        assert r in m.succeeded;
      }
    }
  }

  lemma UnnamedStays(m: Model, base: map<Id, Doc>, id: Id)
    requires Inv(m, base) && id in base && !IsRowId(m.rows, id)
    ensures id in m.store && m.store[id] == base[id]
  {
    hide Edited;
    assert Untouched(m, id);
  }

  lemma {:induction false} StoredSumIs(m: Model, base: map<Id, Doc>, n: nat)
    requires Inv(m, base) && Finished(m) && m.failed == {} && NonNegative(m.rows) && n <= |m.rows|
    requires OwnDocuments(m.rows, base)
    ensures StoredSum(m, n) == Sum(m.rows[..n])
    decreases n
  {
    hide Inv, OwnDocuments, Home;
    if n > 0 {
      StoredSumIs(m, base, n - 1);
      assert m.rows[..n][..n - 1] == m.rows[..n - 1];
      if m.rows[n - 1].amount > 0 { PositiveStored(m, base, n - 1); }
    } else {
      assert m.rows[..0] == [];
    }
  }

  lemma NamedReconcile(table: seq<Row>, donates: seq<Donate>, base: map<Id, Doc>, events: seq<Event>)
    requires LoadedFrom(donates, base) && Linked(table, donates) && NonNegative(table) && WellNamed(table, base)
    requires var run := After(ToPass(table, donates), base, events);
             run.Some? && Finished(run.value) && run.value.failed == {}
    ensures Reconciled(After(ToPass(table, donates), base, events).value, base, donates, table, Sum(table))
  {
    hide After, ToPass, Inv, Linked, Covered, LoadedFrom, Home, Holds, NonNegative, Finished, UniqueOrganisations,
         OwnDocuments, NoneDeleted, Owned, LeftAlone;
    assert UniqueOrganisations(donates) by { LoadedUnique(donates, base); }
    HandOver(table, donates);
    PassedNamed(table, donates, base);
    var rows := ToPass(table, donates);
    assert SeparateIds(rows) by { LinkedUnique(rows, donates); NamedSeparate(rows, base); }
    RunKeeps(rows, base, events);
    var m := After(rows, base, events).value;
    forall i: nat | PositiveRow(m, i) ensures i < |table| && Holds(m, i) {
      PositiveStored(m, base, i);
      OnlyTablePositive(table, donates, i);
    }
    forall i: nat, j: nat | PositiveRow(m, i) && PositiveRow(m, j) && i != j ensures Home(m, i) != Home(m, j) {
      HomesDiffer(m, base, i, j);
    }
    forall id | id in m.store ensures Owned(m, id) || LeftAlone(m, base, donates, id) {
      NothingElse(m, base, donates, id);
    }
    forall id | id in base && !IsRowId(m.rows, id) ensures id in m.store && m.store[id] == base[id] {
      UnnamedStays(m, base, id);
    }
    StoredSumIs(m, base, |m.rows|);
    assert m.rows[..|m.rows|] == rows;
  }

  lemma LoadedUnique(donates: seq<Donate>, base: map<Id, Doc>)
    requires LoadedFrom(donates, base)
    ensures UniqueOrganisations(donates)
  {}

  lemma LinkedUnique(rows: seq<Row>, donates: seq<Donate>)
    requires Linked(rows, donates)
    ensures UniqueRows(rows)
  {}

  // ---------------------------------------------------------------- and no others do

  /** A document that a row names has the organisation it had, or none; and none once a row has deleted it. */
  ghost predicate OrganisationsKept(m: Model, base: map<Id, Doc>) {
    forall i | 0 <= i < |m.rows| && m.rows[i].donateId.Some? && m.rows[i].donateId.value in m.store ::
      var id := m.rows[i].donateId.value;
      && (m.store[id].organisation.None? || (id in base && m.store[id].organisation == base[id].organisation))
      && (i in m.succeeded && m.rows[i].amount <= 0 ==> m.store[id].organisation.None?)
  }

  lemma IssueOrganisations(m: Model, base: map<Id, Doc>)
    requires OrganisationsKept(m, base) && Enabled(m, Issue)
    ensures OrganisationsKept(Next(m, Issue), base)
  {}

  lemma AnswerOrganisations(m: Model, base: map<Id, Doc>, n: nat, success: bool, newId: Id)
    requires OrganisationsKept(m, base) && Enabled(m, Answer(n, success, newId)) && n < |m.rows|
    requires !NeedsNoWrite(m.rows[n])
    ensures OrganisationsKept(Next(m, Answer(n, success, newId)), base)
  {
    hide Report, IsRowId;
    var m' := Next(m, Answer(n, success, newId));
    forall i | 0 <= i < |m'.rows| && m'.rows[i].donateId.Some? && m'.rows[i].donateId.value in m'.store
      ensures var id := m'.rows[i].donateId.value;
              && (m'.store[id].organisation.None? || (id in base && m'.store[id].organisation == base[id].organisation))
              && (i in m'.succeeded && m'.rows[i].amount <= 0 ==> m'.store[id].organisation.None?)
    {
      RowIdIs(m.rows, i);
    }
  }

  /** In every reachable state, whatever the rows name. */
  lemma {:induction false} RunOrganisations(rows: seq<Row>, base: map<Id, Doc>, events: seq<Event>)
    requires After(rows, base, events).Some?
    ensures var m := After(rows, base, events).value;
            && m.rows == rows && OrganisationsKept(m, base)
            && forall i | i in m.open && i < |m.rows| :: !NeedsNoWrite(m.rows[i])
    decreases |events|
  {
    hide Next, Enabled, OrganisationsKept, NeedsNoWrite;
    if events == [] {
      assert OrganisationsKept(Start(rows, base), base) by { StartOrganisations(rows, base); }
    } else {
      var n := |events| - 1;
      RunOrganisations(rows, base, events[..n]);
      var m, e := After(rows, base, events[..n]).value, events[n];
      NextRows(m, e);
      OnlyWritesAwait(m, e);
      match e
      case Issue => IssueOrganisations(m, base);
      case Answer(i, success, newId) =>
        AnswerOpen(m, i, success, newId);
        AnswerOrganisations(m, base, i, success, newId);
    }
  }

  lemma StartOrganisations(rows: seq<Row>, base: map<Id, Doc>)
    ensures OrganisationsKept(Start(rows, base), base)
  {}

  lemma AnswerOpen(m: Model, i: nat, success: bool, newId: Id)
    requires Enabled(m, Answer(i, success, newId))
    ensures i in m.open && i < |m.rows|
  {}

  /** A row with a positive amount that names a document of another organisation, or one that does not exist, or one
      that another row deletes, is not stored under its organisation. */
  lemma MisnamedNotStored(rows: seq<Row>, base: map<Id, Doc>, events: seq<Event>)
    requires var run := After(rows, base, events);
             run.Some? && Finished(run.value) && run.value.failed == {}
    requires !WellNamed(rows, base)
    ensures After(rows, base, events).value.rows == rows
    ensures var m := After(rows, base, events).value; exists i: nat :: PositiveRow(m, i) && !Holds(m, i)
  {
    hide After, OrganisationsKept;
    RunOrganisations(rows, base, events);
    RunCounted(rows, base, events);
    var m := After(rows, base, events).value;
    if !OwnDocuments(rows, base) {
      var i: nat :| i < |rows| && rows[i].amount > 0 && rows[i].donateId.Some? &&
                    !(rows[i].donateId.value in base &&
                      base[rows[i].donateId.value].organisation == Some(rows[i].organisation));
      NoOwnDocument(m, base, i);
      assert PositiveRow(m, i);
    } else {
      var i: nat, j: nat :| i < |rows| && j < |rows| && rows[i].amount > 0 && rows[i].donateId.Some? &&
          rows[j].amount <= 0 &&
                            rows[i].donateId == rows[j].donateId;
      assert j in m.succeeded;
      DeletedDocument(m, base, i, j);
      assert PositiveRow(m, i);
    }
  }

  lemma NoOwnDocument(m: Model, base: map<Id, Doc>, i: nat)
    requires OrganisationsKept(m, base) && i < |m.rows| && m.rows[i].donateId.Some?
    requires m.rows[i].donateId.value in base ==>
               base[m.rows[i].donateId.value].organisation != Some(m.rows[i].organisation)
    ensures !Holds(m, i)
  {}

  lemma DeletedDocument(m: Model, base: map<Id, Doc>, i: nat, j: nat)
    requires OrganisationsKept(m, base) && i < |m.rows| && j < |m.rows| && j in m.succeeded
    requires m.rows[i].donateId.Some? && m.rows[i].donateId == m.rows[j].donateId && m.rows[j].amount <= 0
    ensures !Holds(m, i)
  {}

  // ---------------------------------------------------------------- the theorems

  /** A finished confirmation without failures, of a table linked to the loaded donates, leaves what it should exactly
      when each row with a positive amount and an id names a document of its own organisation that no other row
      deletes. */
  lemma ConfirmationReconciles(table: seq<Row>, donates: seq<Donate>, base: map<Id, Doc>, events: seq<Event>)
    requires LoadedFrom(donates, base) && Linked(table, donates) && NonNegative(table)
    requires var run := After(ToPass(table, donates), base, events);
             run.Some? && Finished(run.value) && run.value.failed == {}
    ensures Reconciled(After(ToPass(table, donates), base, events).value, base, donates, table, Sum(table)) <==>
            WellNamed(table, base)
  {
    hide After, ToPass, Finished, WellNamed, Holds, Linked, LoadedFrom, NonNegative;
    if WellNamed(table, base) {
      NamedReconcile(table, donates, base, events);
    } else {
      PassedNamed(table, donates, base);
      MisnamedNotStored(ToPass(table, donates), base, events);
    }
  }

  /** The monthly flow from load to store: donates loaded, merged with a cause's distinct organisations and with a
      bucket saved meanwhile, edited in any way, confirmed when the rows add up to the amount to donate, and every write
      answered with success in any order. The handler has then fired once; and the store holds exactly the positive rows
      of the table, summing to that amount, exactly when the confirmed table is well named. It is when the saved bucket
      fits. */
  lemma MonthlyReconciliation(causes: Option<seq<Id>>, donates: seq<Donate>, saved: Option<seq<Row>>, loadAmount: int,
                              edits: seq<Edit>, donateAmount: int, base: map<Id, Doc>, events: seq<Event>)
    requires LoadedFrom(donates, base) && (causes.Some? ==> Distinct(causes.value))
    requires NonNegative(Merged(causes, donates, saved, loadAmount))
    requires var table := ApplyAll(Merged(causes, donates, saved, loadAmount), edits);
             && Sum(table) == donateAmount
             && (var run := After(ToPass(table, donates), base, events);
                 run.Some? && Finished(run.value) && run.value.failed == {})
    ensures var table := ApplyAll(Merged(causes, donates, saved, loadAmount), edits);
            var m := After(ToPass(table, donates), base, events).value;
            && (Reconciled(m, base, donates, table, donateAmount) <==> WellNamed(table, base))
            && ((saved.Some? ==> SavedFits(Loaded(causes, donates), saved.value)) ==> WellNamed(table, base))
            && m.barrier.fired == if ToPass(table, donates) == [] then [] else [true]
  {
    hide After, ToPass, Consistent, Linked, Covered, LoadedFrom, NonNegative, Finished, Reconciled, UniqueOrganisations,
         Merged, ApplyAll, WellNamed, SavedFits, Loaded;
    LoadedUnique(donates, base);
    var merged := Merged(causes, donates, saved, loadAmount);
    MergedLinked(causes, donates, saved, loadAmount);
    MergedConsistent(causes, donates, saved, loadAmount);
    EditsKeep(merged, edits, donates);
    var table := ApplyAll(merged, edits);
    if Consistent(table, donates) { ConsistentNamed(table, donates, base); }
    ConfirmationReconciles(table, donates, base, events);
    HandlerFiresOnce(ToPass(table, donates), base, events);
    RunCounted(ToPass(table, donates), base, events);
  }
}
