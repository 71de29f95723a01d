/** What the rows of the bucket show: the amounts and the order the load leaves, and what each action changes. */
module BucketAmounts {
  import opened Common
  import opened Bucket

  // ---------------------------------------------------------------- without a saved bucket

  /** What the stored donates come to. */
  function Stored(donates: seq<Donate>): int {
    if donates == [] then 0 else donates[0].amount + Stored(donates[1..])
  }

  /** The row shows its organisation's stored donate, or nothing when there is none. */
  predicate Shows(row: Row, donates: seq<Donate>) {
    && (forall i | 0 <= i < |donates| && donates[i].organisation == row.organisation ::
          row.amount == donates[i].amount && row.donateId == Some(donates[i].id))
    && ((forall i | 0 <= i < |donates| :: donates[i].organisation != row.organisation) ==>
          row.amount == 0 && row.donateId == None)
  }

  lemma CauseRowShows(donates: seq<Donate>, org: Id)
    requires UniqueOrganisations(donates)
    ensures CauseRow(donates, org).organisation == org && Shows(CauseRow(donates, org), donates)
  {
    hide FirstDonate;
    var row := CauseRow(donates, org);
    forall i | 0 <= i < |donates| && donates[i].organisation == org
      ensures row.amount == donates[i].amount && row.donateId == Some(donates[i].id)
    {
      FirstDonateFinds(donates, i);
    }
  }

  /** Taking out one organisation's donate does not change what the rows of others show. */
  lemma ShowsWithout(row: Row, donates: seq<Donate>, org: Id)
    requires UniqueOrganisations(donates) && row.organisation != org && Shows(row, Without(donates, org))
    ensures Shows(row, donates)
  {
    hide Without;
    WithoutMembers(donates, org);
    var rest := Without(donates, org);
    forall i | 0 <= i < |donates| && donates[i].organisation == row.organisation
      ensures row.amount == donates[i].amount && row.donateId == Some(donates[i].id)
    {
      assert donates[i] in rest;
    }
    if forall i | 0 <= i < |donates| :: donates[i].organisation != row.organisation {
      forall i | 0 <= i < |rest| ensures rest[i].organisation != row.organisation { assert rest[i] in donates; }
    }
  }

  /** The rows of the cause's organisations, in the order of the cause. */
  lemma {:induction false} CauseRowsShow(causes: seq<Id>, donates: seq<Donate>)
    requires Distinct(causes) && UniqueOrganisations(donates)
    ensures |CauseRows(causes, donates)| == |causes|
    ensures forall k | 0 <= k < |causes| ::
              CauseRows(causes, donates)[k].organisation == causes[k] && Shows(CauseRows(causes, donates)[k], donates)
    decreases |causes|
  {
    hide Shows, Without, CauseRow, UniqueOrganisations;
    if causes != [] {
      var rest := Without(donates, causes[0]);
      WithoutUnique(donates, causes[0]);
      CauseRowShows(donates, causes[0]);
      CauseRowsShow(causes[1..], rest);
      forall k | 0 < k < |causes|
        ensures CauseRows(causes, donates)[k].organisation == causes[k]
        ensures Shows(CauseRows(causes, donates)[k], donates)
      {
        assert CauseRows(causes, donates)[k] == CauseRows(causes[1..], rest)[k - 1] && causes[k] == causes[1..][k - 1];
        ShowsWithout(CauseRows(causes, donates)[k], donates, causes[0]);
      }
    }
  }

  /** The donates outside the cause, in stored order. */
  function Outside(causes: seq<Id>, donates: seq<Donate>): seq<Donate> {
    if donates == [] then []
    else (if donates[0].organisation in causes then [] else [donates[0]]) + Outside(causes, donates[1..])
  }

  lemma {:induction false} OutsideApart(causes: seq<Id>, a: seq<Donate>, b: seq<Donate>)
    ensures Outside(causes, a + b) == Outside(causes, a) + Outside(causes, b)
    decreases |a|
  {
    if a == [] {
      assert a + b == b;
    } else {
      assert (a + b)[1..] == a[1..] + b;
      OutsideApart(causes, a[1..], b);
    }
  }

  /** Looking for donates outside a longer cause among those without the first organisation's. */
  lemma {:induction false} OutsideMore(org: Id, causes: seq<Id>, donates: seq<Donate>)
    requires forall i | 0 <= i < |donates| :: donates[i].organisation != org
    ensures Outside([org] + causes, donates) == Outside(causes, donates)
    decreases |donates|
  {
    if donates != [] { OutsideMore(org, causes, donates[1..]); }
  }

  lemma OutsideWithout(causes: seq<Id>, donates: seq<Donate>)
    requires causes != [] && UniqueOrganisations(donates)
    ensures Outside(causes, donates) == Outside(causes[1..], Without(donates, causes[0]))
  {
    hide FirstDonate, Outside;
    var org := causes[0];
    var rest := Without(donates, org);
    assert [org] + causes[1..] == causes;
    WithoutMembers(donates, org);
    forall i | 0 <= i < |rest| ensures rest[i].organisation != org { assert rest[i] in rest; }
    OutsideMore(org, causes[1..], rest);
    var first := FirstDonate(donates, org);
    if first.Some? {
      var i := first.value;
      assert donates == (donates[..i] + [donates[i]]) + donates[i + 1..];
      OutsideApart(causes, donates[..i] + [donates[i]], donates[i + 1..]);
      OutsideApart(causes, donates[..i], [donates[i]]);
      OutsideApart(causes, donates[..i], donates[i + 1..]);
      OutsideOne(causes, donates[i]);
    }
  }

  lemma OutsideOne(causes: seq<Id>, d: Donate)
    ensures Outside(causes, [d]) == if d.organisation in causes then [] else [d]
  {
    assert [d][1..] == [];
    assert Outside(causes, []) == [];
  }

  lemma {:induction false} LeftOverIsOutside(causes: seq<Id>, donates: seq<Donate>)
    requires UniqueOrganisations(donates)
    ensures LeftOver(causes, donates) == Outside(causes, donates)
    decreases |causes|
  {
    hide Outside, Without;
    if causes == [] {
      OutsideNothing(donates);
    } else {
      OutsideWithout(causes, donates);
      WithoutUnique(donates, causes[0]);
      LeftOverIsOutside(causes[1..], Without(donates, causes[0]));
    }
  }

  lemma {:induction false} OutsideNothing(donates: seq<Donate>)
    ensures Outside([], donates) == donates
    decreases |donates|
  {
    if donates != [] { OutsideNothing(donates[1..]); }
  }

  /** What stands in the table when no bucket was saved: the organisations of the cause in its order, each with its
      stored donate or nothing; then, in the monthly table, the other stored donates in theirs. */
  predicate Table(rows: seq<Row>, causes: seq<Id>, donates: seq<Donate>, others: seq<Donate>) {
    && |rows| == |causes| + |others|
    && (forall k | 0 <= k < |causes| :: rows[k].organisation == causes[k] && Shows(rows[k], donates))
    && forall k | 0 <= k < |others| ::
         rows[|causes| + k] == Row(others[k].amount, others[k].organisation, Some(others[k].id))
  }

  /** A table of one row takes the whole amount; any other shows the stored amounts. */
  ghost predicate Unsaved(rows: seq<Row>, causes: seq<Id>, donates: seq<Donate>, others: seq<Donate>,
                          donateAmount: int)
  {
    if |causes| + |others| == 1 then
      && |rows| == 1 && rows[0].amount == donateAmount
      && exists a :: Table([rows[0].(amount := a)], causes, donates, others)
    else Table(rows, causes, donates, others)
  }

  /** What the two loads have in the table before a saved bucket is looked for. */
  lemma LoadedTable(causes: Option<seq<Id>>, donates: seq<Donate>)
    requires (causes.Some? ==> Distinct(causes.value)) && UniqueOrganisations(donates)
    ensures var cs := if causes.Some? then causes.value else [];
            && Table(Loaded(causes, donates), cs, donates, Outside(cs, donates)) && UniqueRows(Loaded(causes, donates))
            && Table(CauseRows(cs, donates), cs, donates, []) && UniqueRows(CauseRows(cs, donates))
  {
    hide CauseRows, LeftOver, Shows, Outside, UniqueOrganisations, Consistent;
    var cs := if causes.Some? then causes.value else [];
    CauseRowsShow(cs, donates);
    LeftOverIsOutside(cs, donates);
    LoadedConsistent(causes, donates);
    OneRowEach(Loaded(causes, donates), donates);
  }

  /** The load without a saved bucket, monthly and one-time. */
  lemma UnsavedTable(causes: Option<seq<Id>>, donates: seq<Donate>, donateAmount: int)
    requires (causes.Some? ==> Distinct(causes.value)) && UniqueOrganisations(donates)
    ensures var cs := if causes.Some? then causes.value else [];
            && Unsaved(Merged(causes, donates, None, donateAmount), cs, donates, Outside(cs, donates), donateAmount)
            && Unsaved(MergedOnce(causes, donates, None, donateAmount), cs, donates, [], donateAmount)
  {
    hide Outside, UniqueOrganisations, Overlay, Loaded, Table, Unsaved, CauseRows;
    var cs := if causes.Some? then causes.value else [];
    LoadedTable(causes, donates);
    UnsavedOverlay(Loaded(causes, donates), cs, donates, Outside(cs, donates), donateAmount);
    UnsavedOverlay(CauseRows(cs, donates), cs, donates, [], donateAmount);
  }

  lemma UnsavedOverlay(rows: seq<Row>, causes: seq<Id>, donates: seq<Donate>, others: seq<Donate>, donateAmount: int)
    requires Table(rows, causes, donates, others)
    ensures Unsaved(Overlay(rows, None, donateAmount), causes, donates, others, donateAmount)
  {
    hide Shows;
    if |rows| == 1 {
      assert rows[0].(amount := donateAmount).(amount := rows[0].amount) == rows[0];
      assert [rows[0]] == rows;
    }
  }

  // ---------------------------------------------------------------- the total of the rows

  lemma SumFront(rows: seq<Row>)
    requires rows != []
    ensures Sum(rows) == rows[0].amount + Sum(rows[1..])
    decreases |rows|
  {
    var n := |rows| - 1;
    if n > 0 {
      SumFront(rows[..n]);
      assert rows[..n][1..] == rows[1..][..n - 1];
    }
  }

  lemma {:induction false} SumApart(a: seq<Row>, b: seq<Row>)
    ensures Sum(a + b) == Sum(a) + Sum(b)
    decreases |b|
  {
    if b == [] {
      assert a + b == a;
    } else {
      var n := |b| - 1;
      assert (a + b)[..|a + b| - 1] == a + b[..n];
      SumApart(a, b[..n]);
    }
  }

  lemma {:induction false} StoredApart(a: seq<Donate>, b: seq<Donate>)
    ensures Stored(a + b) == Stored(a) + Stored(b)
    decreases |a|
  {
    if a == [] {
      assert a + b == b;
    } else {
      assert (a + b)[1..] == a[1..] + b;
      StoredApart(a[1..], b);
    }
  }

  lemma {:induction false} OthersSum(donates: seq<Donate>)
    ensures Sum(DonateRows(donates)) == Stored(donates)
    decreases |donates|
  {
    hide Sum;
    if donates == [] {
      assert DonateRows(donates) == [];
      assert Sum([]) == 0 by { NoRows(); }
    } else {
      SumFront(DonateRows(donates));
      assert DonateRows(donates)[1..] == DonateRows(donates[1..]);
      OthersSum(donates[1..]);
    }
  }

  lemma NoRows()
    ensures Sum([]) == 0
  {}

  /** One organisation's row takes what its donate leaves. */
  lemma TakenSum(donates: seq<Donate>, org: Id)
    requires UniqueOrganisations(donates)
    ensures CauseRow(donates, org).amount + Stored(Without(donates, org)) == Stored(donates)
  {
    hide FirstDonate, Stored;
    var first := FirstDonate(donates, org);
    if first.Some? {
      var i := first.value;
      assert donates == (donates[..i] + [donates[i]]) + donates[i + 1..];
      StoredApart(donates[..i] + [donates[i]], donates[i + 1..]);
      StoredApart(donates[..i], [donates[i]]);
      StoredApart(donates[..i], donates[i + 1..]);
      StoredOne(donates[i]);
    }
  }

  lemma StoredOne(d: Donate)
    ensures Stored([d]) == d.amount
  {
    assert [d][1..] == [];
  }

  lemma {:induction false} CauseSum(causes: seq<Id>, donates: seq<Donate>)
    requires UniqueOrganisations(donates)
    ensures Sum(CauseRows(causes, donates)) + Stored(LeftOver(causes, donates)) == Stored(donates)
    decreases |causes|
  {
    hide Sum, Stored, CauseRow, Without;
    if causes == [] {
      NoRows();
    } else {
      TakenSum(donates, causes[0]);
      WithoutUnique(donates, causes[0]);
      CauseSum(causes[1..], Without(donates, causes[0]));
      SumFront(CauseRows(causes, donates));
      assert CauseRows(causes, donates)[1..] == CauseRows(causes[1..], Without(donates, causes[0]));
    }
  }

  /** Without a saved bucket the monthly table adds up to the stored donates, unless it has a single row, which takes
      the amount to donate; so the button is enabled at once when that amount is the one last stored. */
  lemma UnsavedTotal(causes: Option<seq<Id>>, donates: seq<Donate>, donateAmount: int)
    requires UniqueOrganisations(donates)
    ensures var table := Merged(causes, donates, None, donateAmount);
            Sum(table) == if |table| == 1 then donateAmount else Stored(donates)
  {
    hide CauseRows, LeftOver, Stored;
    var cs := if causes.Some? then causes.value else [];
    CauseSum(cs, donates);
    SumApart(CauseRows(cs, donates), DonateRows(LeftOver(cs, donates)));
    OthersSum(LeftOver(cs, donates));
    var rows := Loaded(causes, donates);
    if |rows| == 1 {
      SumFront([rows[0].(amount := donateAmount)]);
      assert [rows[0].(amount := donateAmount)][1..] == [];
    }
  }

  // ---------------------------------------------------------------- with a saved bucket

  /** The amount of the last saved row of an organisation. */
  function LastSaved(saved: seq<Row>, org: Id): Option<int> {
    if saved == [] then None
    else if saved[|saved| - 1].organisation == org then Some(saved[|saved| - 1].amount)
    else LastSaved(saved[..|saved| - 1], org)
  }

  function SavedOr(saved: seq<Row>, org: Id, amount: int): int {
    if LastSaved(saved, org).Some? then LastSaved(saved, org).value else amount
  }

  lemma {:induction false} SavedFirst(saved: seq<Row>, org: Id, amount: int)
    requires saved != []
    ensures SavedOr(saved, org, amount) ==
            SavedOr(saved[1..], org, if saved[0].organisation == org then saved[0].amount else amount)
    decreases |saved|
  {
    var n := |saved| - 1;
    if n > 0 && saved[n].organisation != org {
      SavedFirst(saved[..n], org, amount);
      assert saved[..n][1..] == saved[1..][..n - 1];
    } else if n == 0 {
      assert saved[1..] == [] && saved[..0] == [];
    }
  }

  lemma FirstRowUnique(rows: seq<Row>, i: nat)
    requires i < |rows| && UniqueRows(rows)
    ensures FirstRow(rows, rows[i].organisation) == Some(i)
  {
    assert rows[i] in rows;
    var r := FirstRow(rows, rows[i].organisation);
    assert r.Some?;
  }

  /** With a saved bucket each row keeps its place, organisation and id, and carries the amount of the last saved row of
      its organisation, or its own if there is none. */
  lemma {:induction false} SavedAmounts(rows: seq<Row>, saved: seq<Row>, i: nat)
    requires i < |rows| && UniqueRows(rows)
    ensures |ApplySaved(rows, saved)| >= |rows|
    ensures ApplySaved(rows, saved)[i] == rows[i].(amount := SavedOr(saved, rows[i].organisation, rows[i].amount))
    decreases |saved|
  {
    hide FirstRow, SavedOr;
    if saved == [] {
      assert SavedOr(saved, rows[i].organisation, rows[i].amount) == rows[i].amount by {
        NoneSaved(rows[i].organisation, rows[i].amount);
      }
    } else {
      var s := saved[0];
      SavedFirst(saved, rows[i].organisation, rows[i].amount);
      match FirstRow(rows, s.organisation)
      case None =>
        assert rows[i] in rows;
        AppendUnique(rows, s);
        SavedAmounts(rows + [s], saved[1..], i);
      case Some(k) =>
        var next := rows[k := rows[k].(amount := s.amount)];
        if rows[i].organisation == s.organisation { FirstRowUnique(rows, i); }
        SavedAmounts(next, saved[1..], i);
    }
  }

  lemma NoneSaved(org: Id, amount: int)
    ensures SavedOr([], org, amount) == amount
  {}

  lemma AppendUnique(rows: seq<Row>, s: Row)
    requires UniqueRows(rows) && FirstRow(rows, s.organisation).None?
    ensures UniqueRows(rows + [s])
  {
    hide FirstRow;
    forall i | 0 <= i < |rows| ensures rows[i].organisation != s.organisation { assert rows[i] in rows; }
  }

  /** The first saved row of each organisation the table lacks, in saved order. */
  function Newcomers(rows: seq<Row>, saved: seq<Row>): seq<Row> {
    if saved == [] then []
    else
      var n := |saved| - 1;
      Newcomers(rows, saved[..n]) + if Appended(rows, saved, n) then [saved[n]] else []
  }

  lemma {:induction false} NewcomersFirst(rows: seq<Row>, saved: seq<Row>, next: seq<Row>)
    requires saved != []
    requires forall org :: HasRow(next, org) <==> org == saved[0].organisation || HasRow(rows, org)
    ensures Newcomers(rows, saved) ==
            (if HasRow(rows, saved[0].organisation) then [] else [saved[0]]) + Newcomers(next, saved[1..])
    decreases |saved|
  {
    hide HasRow, Appended, Newcomers;
    var n := |saved| - 1;
    LastNewcomer(rows, saved);
    if n == 0 {
      assert saved[..0] == [] && saved[1..] == [];
      NoNewcomers(rows);
      NoNewcomers(next);
      assert Appended(rows, saved, 0) <==> !HasRow(rows, saved[0].organisation) by { FirstAppended(rows, saved); }
    } else {
      NewcomersFirst(rows, saved[..n], next);
      assert saved[..n][1..] == saved[1..][..n - 1];
      LastNewcomer(next, saved[1..]);
      StillAppended(rows, saved, next, n);
    }
  }

  lemma FirstAppended(rows: seq<Row>, saved: seq<Row>)
    requires saved != []
    ensures Appended(rows, saved, 0) <==> !HasRow(rows, saved[0].organisation)
  {}

  lemma LastNewcomer(rows: seq<Row>, saved: seq<Row>)
    requires saved != []
    ensures var n := |saved| - 1;
            Newcomers(rows, saved) ==
            Newcomers(rows, saved[..n]) + if Appended(rows, saved, n) then [saved[n]] else []
  {
    hide Appended;
  }

  lemma StillAppended(rows: seq<Row>, saved: seq<Row>, next: seq<Row>, i: nat)
    requires 0 < i < |saved|
    requires forall org :: HasRow(next, org) <==> org == saved[0].organisation || HasRow(rows, org)
    ensures Appended(rows, saved, i) <==> Appended(next, saved[1..], i - 1)
  {
    hide HasRow;
    var org := saved[i].organisation;
    assert saved[1..][i - 1] == saved[i];
    if Appended(rows, saved, i) {
      assert saved[0].organisation != org;
      assert forall k | 0 <= k < i - 1 :: saved[1..][k] == saved[k + 1];
    }
    if Appended(next, saved[1..], i - 1) {
      assert HasRow(next, org) <==> org == saved[0].organisation || HasRow(rows, org);
      forall k | 0 <= k < i ensures saved[k].organisation != org {
        if k > 0 { assert saved[k] == saved[1..][k - 1]; }
      }
    }
  }

  /** Behind the rows of the table come the saved rows of organisations it lacks: one each, in saved order, with the id
      of the first and the amount of the last. */
  lemma {:induction false} SavedAppends(rows: seq<Row>, saved: seq<Row>)
    requires UniqueRows(rows)
    ensures var added, result := Newcomers(rows, saved), ApplySaved(rows, saved);
            && |result| == |rows| + |added|
            && forall k | 0 <= k < |added| ::
                 result[|rows| + k] == added[k].(amount := SavedOr(saved, added[k].organisation, 0))
    decreases |saved|
  {
    hide FirstRow, SavedOr, HasRow, Newcomers;
    if saved == [] {
      assert Newcomers(rows, saved) == [] by { NoNewcomers(rows); }
    } else {
      var s := saved[0];
      HasRowIff(rows, s.organisation);
      match FirstRow(rows, s.organisation)
      case None =>
        OrganisationsAppend(rows, s);
        NewcomersFirst(rows, saved, rows + [s]);
        AppendUnique(rows, s);
        SavedAppends(rows + [s], saved[1..]);
        SavedAmounts(rows + [s], saved[1..], |rows|);
        NewcomerAmounts(rows, saved, rows + [s]);
      case Some(i) =>
        var next := rows[i := rows[i].(amount := s.amount)];
        OrganisationsAmount(rows, i, s.amount);
        NewcomersFirst(rows, saved, next);
        SavedAppends(next, saved[1..]);
        NewcomerAmounts(rows, saved, next);
    }
  }

  lemma NoNewcomers(rows: seq<Row>)
    ensures Newcomers(rows, []) == []
  {}

  lemma HasRowIff(rows: seq<Row>, org: Id)
    ensures HasRow(rows, org) <==> FirstRow(rows, org).Some?
  {
    hide FirstRow;
    if k :| 0 <= k < |rows| && rows[k].organisation == org { assert rows[k] in rows; }
  }

  /** What the rest of the saved bucket says of its newcomers, the whole says too. */
  lemma NewcomerAmounts(rows: seq<Row>, saved: seq<Row>, next: seq<Row>)
    requires saved != []
    requires forall org :: HasRow(next, org) <==> org == saved[0].organisation || HasRow(rows, org)
    ensures forall r | r in Newcomers(next, saved[1..]) ::
              SavedOr(saved, r.organisation, 0) == SavedOr(saved[1..], r.organisation, 0)
    ensures SavedOr(saved, saved[0].organisation, 0) == SavedOr(saved[1..], saved[0].organisation, saved[0].amount)
  {
    hide HasRow, SavedOr;
    forall r | r in Newcomers(next, saved[1..])
      ensures SavedOr(saved, r.organisation, 0) == SavedOr(saved[1..], r.organisation, 0)
    {
      NewcomerIsNew(next, saved[1..], r);
      SavedFirst(saved, r.organisation, 0);
    }
    SavedFirst(saved, saved[0].organisation, 0);
  }

  lemma {:induction false} NewcomerIsNew(rows: seq<Row>, saved: seq<Row>, r: Row)
    requires r in Newcomers(rows, saved)
    ensures !HasRow(rows, r.organisation)
    decreases |saved|
  {
    hide HasRow;
    var n := |saved| - 1;
    if r in Newcomers(rows, saved[..n]) { NewcomerIsNew(rows, saved[..n], r); }
  }

  /** The table after a saved bucket was laid over `rows`. */
  predicate Overwritten(rows: seq<Row>, saved: seq<Row>, result: seq<Row>) {
    var added := Newcomers(rows, saved);
    && |result| == |rows| + |added|
    && (forall i | 0 <= i < |rows| ::
          result[i] == rows[i].(amount := SavedOr(saved, rows[i].organisation, rows[i].amount)))
    && forall k | 0 <= k < |added| ::
         result[|rows| + k] == added[k].(amount := SavedOr(saved, added[k].organisation, 0))
  }

  ghost predicate Saved(result: seq<Row>, saved: seq<Row>, causes: seq<Id>, donates: seq<Donate>, others: seq<Donate>) {
    exists rows :: Table(rows, causes, donates, others) && Overwritten(rows, saved, result)
  }

  lemma ApplySavedOverwrites(rows: seq<Row>, saved: seq<Row>)
    requires UniqueRows(rows)
    ensures Overwritten(rows, saved, ApplySaved(rows, saved))
  {
    hide ApplySaved, SavedOr, Newcomers, UniqueRows;
    SavedAppends(rows, saved);
    forall i | 0 <= i < |rows|
      ensures ApplySaved(rows, saved)[i] == rows[i].(amount := SavedOr(saved, rows[i].organisation, rows[i].amount))
    {
      SavedAmounts(rows, saved, i);
    }
  }

  /** The load with a saved bucket, monthly and one-time. */
  lemma SavedTable(causes: Option<seq<Id>>, donates: seq<Donate>, saved: seq<Row>, donateAmount: int)
    requires (causes.Some? ==> Distinct(causes.value)) && UniqueOrganisations(donates)
    ensures var cs := if causes.Some? then causes.value else [];
            && Saved(Merged(causes, donates, Some(saved), donateAmount), saved, cs, donates, Outside(cs, donates))
            && Saved(MergedOnce(causes, donates, Some(saved), donateAmount), saved, cs, donates, [])
  {
    hide Outside, UniqueOrganisations, Loaded, Table, Overwritten, ApplySaved, CauseRows;
    var cs := if causes.Some? then causes.value else [];
    LoadedTable(causes, donates);
    ApplySavedOverwrites(Loaded(causes, donates), saved);
    ApplySavedOverwrites(CauseRows(cs, donates), saved);
  }

  lemma OneRowEach(rows: seq<Row>, donates: seq<Donate>)
    requires Consistent(rows, donates)
    ensures UniqueRows(rows)
  {}

  // ---------------------------------------------------------------- what an action changes

  /** The slider changes its row's amount, the delete action takes its row out, and another amount to donate sets every
      row to zero; nothing else moves. */
  lemma EditEffect(rows: seq<Row>, e: Edit)
    requires match e
             case SetAmount(i, a) => i < |rows| && a >= 0
             case Delete(i) => i < |rows|
             case ResetAmounts(_) => true
    ensures Allowed(rows, e)
    ensures var r := Apply(rows, e);
            match e
            case SetAmount(i, a) =>
              && |r| == |rows| && r[i] == Row(a, rows[i].organisation, rows[i].donateId)
              && forall k | 0 <= k < |rows| && k != i :: r[k] == rows[k]
            case Delete(i) =>
              && |r| == |rows| - 1
              && (forall k | 0 <= k < i :: r[k] == rows[k]) && forall k | i <= k < |r| :: r[k] == rows[k + 1]
            case ResetAmounts(_) =>
              |r| == |rows| && forall k | 0 <= k < |rows| :: r[k] == Row(0, rows[k].organisation, rows[k].donateId)
  {}
}
