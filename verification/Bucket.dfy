/** The donation bucket: merging loaded donates with a cause's organisations, editing the rows, and handing
    them to the confirmation screen. */
module Bucket {
  import opened Common

  type Id = string

  /** OrganisationWithAmount and DonateItem, with the organisation by its id. */
  datatype Row = Row(amount: int, organisation: Id, donateId: Option<Id>)
  datatype Donate = Donate(id: Id, amount: int, organisation: Id)

  // ---------------------------------------------------------------- lookups

  /** firstIndex(where:) by organisation. */
  function FirstDonate(donates: seq<Donate>, org: Id): (r: Option<nat>)
    ensures r.Some? ==> r.value < |donates| && donates[r.value].organisation == org
    ensures r.None? ==> forall d | d in donates :: d.organisation != org
  {
    if donates == [] then None
    else if donates[0].organisation == org then Some(0)
    else match FirstDonate(donates[1..], org) case None => None case Some(i) => Some(i + 1)
  }

  function FirstRow(rows: seq<Row>, org: Id): (r: Option<nat>)
    ensures r.Some? ==> r.value < |rows| && rows[r.value].organisation == org
    ensures r.None? ==> forall row | row in rows :: row.organisation != org
  {
    if rows == [] then None
    else if rows[0].organisation == org then Some(0)
    else match FirstRow(rows[1..], org) case None => None case Some(i) => Some(i + 1)
  }

  /** The stored donate of an organisation, if it has one. */
  function IdFor(donates: seq<Donate>, org: Id): Option<Id> {
    match FirstDonate(donates, org) case None => None case Some(i) => Some(donates[i].id)
  }

  predicate UniqueOrganisations(donates: seq<Donate>) {
    forall i, j | 0 <= i < j < |donates| :: donates[i].organisation != donates[j].organisation
  }

  predicate UniqueRows(rows: seq<Row>) {
    forall i, j | 0 <= i < j < |rows| :: rows[i].organisation != rows[j].organisation
  }

  /** One row per organisation, each carrying the id of the organisation's stored donate or none. */
  predicate Consistent(rows: seq<Row>, donates: seq<Donate>) {
    UniqueRows(rows) && forall i | 0 <= i < |rows| :: rows[i].donateId == IdFor(donates, rows[i].organisation)
  }

  /** One row per organisation, and where the organisation has a stored donate the row carries its id. Other rows may
      carry any id, such as one left over from a donate that no longer exists. */
  predicate Linked(rows: seq<Row>, donates: seq<Donate>) {
    && UniqueRows(rows)
    && forall i | 0 <= i < |rows| && IdFor(donates, rows[i].organisation).Some? ::
         rows[i].donateId == IdFor(donates, rows[i].organisation)
  }

  /** Every stored donate has a row. */
  predicate Covered(rows: seq<Row>, donates: seq<Donate>) {
    forall i | 0 <= i < |donates| :: FirstRow(rows, donates[i].organisation).Some?
  }

  predicate NonNegative(rows: seq<Row>) {
    forall i | 0 <= i < |rows| :: rows[i].amount >= 0
  }

  function Sum(rows: seq<Row>): int {
    if rows == [] then 0 else Sum(rows[..|rows| - 1]) + rows[|rows| - 1].amount
  }

  lemma {:induction false} FirstRowFinds(rows: seq<Row>, i: nat)
    requires i < |rows|
    ensures FirstRow(rows, rows[i].organisation).Some?
  {
    assert rows[i] in rows;
  }

  lemma FirstDonateFinds(donates: seq<Donate>, i: nat)
    requires i < |donates| && UniqueOrganisations(donates)
    ensures FirstDonate(donates, donates[i].organisation) == Some(i)
    ensures IdFor(donates, donates[i].organisation) == Some(donates[i].id)
  {
    var r := FirstDonate(donates, donates[i].organisation);
    assert donates[i] in donates;
    assert r.Some?;
  }

  function PositiveSum(rows: seq<Row>): int {
    if rows == [] then 0
    else PositiveSum(rows[..|rows| - 1]) + if rows[|rows| - 1].amount > 0 then rows[|rows| - 1].amount else 0
  }

  /** The positive rows add up to the total exactly when no row is negative. */
  lemma {:induction false} PositiveSumIff(rows: seq<Row>)
    ensures PositiveSum(rows) >= Sum(rows)
    ensures PositiveSum(rows) == Sum(rows) <==> NonNegative(rows)
    decreases |rows|
  {
    if rows != [] {
      var n := |rows| - 1;
      PositiveSumIff(rows[..n]);
      assert NonNegative(rows) <==> NonNegative(rows[..n]) && rows[n].amount >= 0;
    }
  }

  // ---------------------------------------------------------------- the merge

  /** The row of a cause's organisation: taken over from its donate, or of amount zero. */
  function CauseRow(left: seq<Donate>, org: Id): Row {
    match FirstDonate(left, org)
    case None => Row(0, org, None)
    case Some(i) => Row(left[i].amount, org, Some(left[i].id))
  }

  /** `left` with the organisation's first donate removed. */
  function Without(left: seq<Donate>, org: Id): seq<Donate> {
    match FirstDonate(left, org)
    case None => left
    case Some(i) => left[..i] + left[i + 1..]
  }

  /** The rows of the cause's organisations, and the donates they leave over. */
  function CauseRows(causes: seq<Id>, left: seq<Donate>): seq<Row> {
    if causes == [] then [] else [CauseRow(left, causes[0])] + CauseRows(causes[1..], Without(left, causes[0]))
  }

  function LeftOver(causes: seq<Id>, left: seq<Donate>): seq<Donate> {
    if causes == [] then left else LeftOver(causes[1..], Without(left, causes[0]))
  }

  function DonateRows(donates: seq<Donate>): (rows: seq<Row>)
    ensures |rows| == |donates|
    ensures forall i | 0 <= i < |rows| ::
            rows[i] == Row(donates[i].amount, donates[i].organisation, Some(donates[i].id))
  {
    seq(|donates|, i requires 0 <= i < |donates| =>
      Row(donates[i].amount, donates[i].organisation, Some(donates[i].id)))
  }

  /** The loop over a saved bucket. */
  function ApplySaved(rows: seq<Row>, saved: seq<Row>): seq<Row>
    decreases |saved|
  {
    if saved == [] then rows
    else
      match FirstRow(rows, saved[0].organisation)
      case None => ApplySaved(rows + [saved[0]], saved[1..])
      case Some(i) => ApplySaved(rows[i := rows[i].(amount := saved[0].amount)], saved[1..])
  }

  /** Causes first, then the donates left over. */
  function Loaded(causes: Option<seq<Id>>, donates: seq<Donate>): seq<Row> {
    var cs := if causes.Some? then causes.value else [];
    CauseRows(cs, donates) + DonateRows(LeftOver(cs, donates))
  }

  /** A saved bucket overwrites the amounts; without one, a single row takes the whole amount. */
  function Overlay(rows: seq<Row>, saved: Option<seq<Row>>, donateAmount: int): seq<Row> {
    if saved.Some? then ApplySaved(rows, saved.value)
    else if |rows| == 1 then [rows[0].(amount := donateAmount)]
    else rows
  }

  /** The table the monthly load leaves. */
  function Merged(causes: Option<seq<Id>>, donates: seq<Donate>, saved: Option<seq<Row>>, donateAmount: int): seq<Row> {
    Overlay(Loaded(causes, donates), saved, donateAmount)
  }

  /** The table the one-time load leaves: donates without an organisation of the cause are not added. */
  function MergedOnce(causes: Option<seq<Id>>, donates: seq<Donate>, saved: Option<seq<Row>>,
                      donateAmount: int): seq<Row> {
    Overlay(CauseRows(if causes.Some? then causes.value else [], donates), saved, donateAmount)
  }

  lemma {:induction false} NothingLeft(causes: seq<Id>)
    ensures LeftOver(causes, []) == []
    decreases |causes|
  {
    if causes != [] { NothingLeft(causes[1..]); }
  }

  /** One-time mode never loads donates, and then its table is the monthly one. */
  lemma OnceIsMonthly(causes: Option<seq<Id>>, saved: Option<seq<Row>>, donateAmount: int)
    ensures MergedOnce(causes, [], saved, donateAmount) == Merged(causes, [], saved, donateAmount)
  {
    var cs := if causes.Some? then causes.value else [];
    NothingLeft(cs);
    assert CauseRows(cs, []) + [] == CauseRows(cs, []);
  }

  lemma WithoutUnique(left: seq<Donate>, org: Id)
    requires UniqueOrganisations(left)
    ensures UniqueOrganisations(Without(left, org))
  {
    hide FirstDonate;
  }

  lemma WithoutMembers(left: seq<Donate>, org: Id)
    requires UniqueOrganisations(left)
    ensures forall d :: d in Without(left, org) <==> d in left && d.organisation != org
  {
    hide FirstDonate;
    var first := FirstDonate(left, org);
    if first.Some? {
      var n, rest := first.value, Without(left, org);
      forall d ensures d in rest <==> d in left && d.organisation != org {
        if d in left && d.organisation != org {
          var i :| 0 <= i < |left| && left[i] == d;
          assert rest[if i < n then i else i - 1] == d;
        }
        if d in rest {
          var i :| 0 <= i < |rest| && rest[i] == d;
          assert left[if i < n then i else i + 1] == d;
        }
      }
    }
  }

  /** Taking out an organisation's donate leaves the other organisations' donates as they were. */
  lemma WithoutIds(left: seq<Donate>, org: Id, other: Id)
    requires UniqueOrganisations(left) && other != org
    ensures IdFor(Without(left, org), other) == IdFor(left, other)
  {
    hide Without, IdFor;
    WithoutUnique(left, org);
    WithoutMembers(left, org);
    SameMembersSameId(Without(left, org), left, other);
  }

  lemma {:induction false} CauseRowsFacts(causes: seq<Id>, left: seq<Donate>)
    requires Distinct(causes) && UniqueOrganisations(left)
    ensures |CauseRows(causes, left)| == |causes|
    ensures forall k | 0 <= k < |causes| ::
              CauseRows(causes, left)[k].organisation == causes[k] &&
                  CauseRows(causes, left)[k].donateId == IdFor(left, causes[k])
    decreases |causes|
  {
    hide IdFor, Without, UniqueOrganisations;
    if causes != [] {
      var left' := Without(left, causes[0]);
      WithoutUnique(left, causes[0]);
      WithoutMembers(left, causes[0]);
      CauseRowsFacts(causes[1..], left');
      assert CauseRow(left, causes[0]).organisation == causes[0];
      assert CauseRow(left, causes[0]).donateId == IdFor(left, causes[0]) by { CauseRowId(left, causes[0]); }
      forall k | 0 < k < |causes|
        ensures CauseRows(causes, left)[k].organisation == causes[k] &&
                CauseRows(causes, left)[k].donateId == IdFor(left, causes[k])
      {
        assert CauseRows(causes, left)[k] == CauseRows(causes[1..], left')[k - 1] && causes[k] == causes[1..][k - 1];
        WithoutIds(left, causes[0], causes[k]);
      }
    }
  }

  lemma CauseRowId(left: seq<Donate>, org: Id)
    ensures CauseRow(left, org).donateId == IdFor(left, org)
  {}

  lemma {:induction false} LeftOverFacts(causes: seq<Id>, left: seq<Donate>)
    requires UniqueOrganisations(left)
    ensures UniqueOrganisations(LeftOver(causes, left))
    ensures forall d :: d in LeftOver(causes, left) <==> d in left && d.organisation !in causes
    decreases |causes|
  {
    hide Without, UniqueOrganisations;
    if causes != [] {
      WithoutUnique(left, causes[0]);
      WithoutMembers(left, causes[0]);
      LeftOverFacts(causes[1..], Without(left, causes[0]));
      assert causes == [causes[0]] + causes[1..];
    }
  }

  lemma SameMembersSameId(a: seq<Donate>, b: seq<Donate>, o: Id)
    requires UniqueOrganisations(a) && UniqueOrganisations(b)
    requires forall d: Donate | d.organisation == o :: d in a <==> d in b
    ensures IdFor(a, o) == IdFor(b, o)
  {
    var i, j := FirstDonate(a, o), FirstDonate(b, o);
    if i.Some? {
      assert a[i.value] in b;
      var k :| 0 <= k < |b| && b[k] == a[i.value];
      FirstDonateFinds(b, k);
    }
    if j.Some? { assert b[j.value] in a; }
  }

  /** Rows of organisations outside `rows`, added after them. */
  lemma JoinConsistent(rows: seq<Row>, left: seq<Donate>, donates: seq<Donate>)
    requires Consistent(rows, donates) && UniqueOrganisations(donates) && UniqueOrganisations(left)
    requires forall d | d in left ::
               d in donates && forall i | 0 <= i < |rows| :: rows[i].organisation != d.organisation
    ensures Consistent(rows + DonateRows(left), donates)
  {
    hide FirstDonate, IdFor;
    var all := rows + DonateRows(left);
    forall i | |rows| <= i < |all| ensures all[i].donateId == IdFor(donates, all[i].organisation) {
      var d := left[i - |rows|];
      assert d in left;
      var k :| 0 <= k < |donates| && donates[k] == d;
      FirstDonateFinds(donates, k);
    }
    forall i, j | 0 <= i < j < |all| ensures all[i].organisation != all[j].organisation {
      if i < |rows| <= j { assert left[j - |rows|] in left; }
    }
  }

  lemma JoinCovered(rows: seq<Row>, left: seq<Donate>, donates: seq<Donate>)
    requires forall d | d in donates ::
               d in left || exists i :: 0 <= i < |rows| && rows[i].organisation == d.organisation
    ensures Covered(rows + DonateRows(left), donates)
  {
    hide FirstRow;
    var all := rows + DonateRows(left);
    forall i | 0 <= i < |donates| ensures FirstRow(all, donates[i].organisation).Some? {
      var d := donates[i];
      assert d in donates;
      if d in left {
        var k :| 0 <= k < |left| && left[k] == d;
        assert all[|rows| + k].organisation == d.organisation;
        FirstRowFinds(all, |rows| + k);
      } else {
        var k :| 0 <= k < |rows| && rows[k].organisation == d.organisation;
        assert all[k] == rows[k];
        FirstRowFinds(all, k);
      }
    }
  }

  /** The merge of a cause's distinct organisations with at most one donate per organisation. */
  lemma LoadedConsistent(causes: Option<seq<Id>>, donates: seq<Donate>)
    requires (causes.Some? ==> Distinct(causes.value)) && UniqueOrganisations(donates)
    ensures Consistent(Loaded(causes, donates), donates) && Covered(Loaded(causes, donates), donates)
  {
    hide CauseRows, LeftOver, FirstDonate, FirstRow, IdFor, Covered;
    var cs := if causes.Some? then causes.value else [];
    CauseRowsFacts(cs, donates);
    LeftOverFacts(cs, donates);
    var rows, left := CauseRows(cs, donates), LeftOver(cs, donates);
    forall d | d in left ensures d in donates && forall i | 0 <= i < |rows| :: rows[i].organisation != d.organisation {
      forall i | 0 <= i < |rows| ensures rows[i].organisation != d.organisation { assert cs[i] in cs; }
    }
    JoinConsistent(rows, left, donates);
    forall d | d in donates
      ensures d in left || exists i :: 0 <= i < |rows| && rows[i].organisation == d.organisation
    {
      if d.organisation in cs {
        var k :| 0 <= k < |cs| && cs[k] == d.organisation;
        assert rows[k].organisation == d.organisation;
      }
    }
    JoinCovered(rows, left, donates);
  }

  predicate HasRow(rows: seq<Row>, org: Id) {
    exists k :: 0 <= k < |rows| && rows[k].organisation == org
  }

  /** Saved row `i` is appended: the table has no row for its organisation, and no earlier saved row brought one. */
  predicate Appended(rows: seq<Row>, saved: seq<Row>, i: nat)
    requires i < |saved|
  {
    && !HasRow(rows, saved[i].organisation)
    && (forall k | 0 <= k < i :: saved[k].organisation != saved[i].organisation)
  }

  /** No saved row that gets appended carries the id of a donate. */
  predicate SavedFits(rows: seq<Row>, saved: seq<Row>) {
    forall i | 0 <= i < |saved| && Appended(rows, saved, i) :: saved[i].donateId.None?
  }

  /** The saved rows behind the first, against the table the first leaves. */
  lemma SavedFitsTail(rows: seq<Row>, saved: seq<Row>, next: seq<Row>)
    requires saved != []
    requires forall org :: HasRow(next, org) <==> org == saved[0].organisation || HasRow(rows, org)
    requires Appended(rows, saved, 0) ==> saved[0].donateId.None?
    ensures SavedFits(rows, saved) <==> SavedFits(next, saved[1..])
  {
    forall i | 0 < i < |saved| ensures Appended(rows, saved, i) <==> Appended(next, saved[1..], i - 1) {
      var org := saved[i].organisation;
      assert saved[1..][i - 1] == saved[i];
      if Appended(rows, saved, i) {
        assert saved[0].organisation != org;
        assert !HasRow(next, org);
        forall k | 0 <= k < i - 1 ensures saved[1..][k].organisation != org { assert saved[1..][k] == saved[k + 1]; }
      }
      if Appended(next, saved[1..], i - 1) {
        assert !HasRow(next, org);
        forall k | 0 <= k < i ensures saved[k].organisation != org {
          if k > 0 { assert saved[k] == saved[1..][k - 1]; }
        }
      }
    }
    if SavedFits(next, saved[1..]) {
      forall i | 0 <= i < |saved| && Appended(rows, saved, i) ensures saved[i].donateId.None? {
        if i > 0 { assert saved[1..][i - 1] == saved[i]; }
      }
    }
    if SavedFits(rows, saved) {
      forall i | 0 <= i < |saved[1..]| && Appended(next, saved[1..], i) ensures saved[1..][i].donateId.None? {
        assert saved[1..][i] == saved[i + 1] && Appended(rows, saved, i + 1);
      }
    }
  }

  /** Rows keep their place, organisation and donate id. */
  lemma {:induction false} RowStays(rows: seq<Row>, saved: seq<Row>, i: nat)
    requires i < |rows|
    ensures i < |ApplySaved(rows, saved)|
    ensures ApplySaved(rows, saved)[i].organisation == rows[i].organisation
    ensures ApplySaved(rows, saved)[i].donateId == rows[i].donateId
    decreases |saved|
  {
    hide FirstRow;
    if saved != [] {
      match FirstRow(rows, saved[0].organisation)
      case None => RowStays(rows + [saved[0]], saved[1..], i);
      case Some(k) => RowStays(rows[k := rows[k].(amount := saved[0].amount)], saved[1..], i);
    }
  }

  lemma ApplySavedCovers(rows: seq<Row>, saved: seq<Row>, donates: seq<Donate>)
    requires Covered(rows, donates)
    ensures Covered(ApplySaved(rows, saved), donates)
  {
    hide FirstRow, ApplySaved;
    forall i | 0 <= i < |donates| ensures FirstRow(ApplySaved(rows, saved), donates[i].organisation).Some? {
      var k := FirstRow(rows, donates[i].organisation).value;
      RowStays(rows, saved, k);
      FirstRowFinds(ApplySaved(rows, saved), k);
    }
  }

  /** A saved bucket leaves one row per organisation with the right donate ids exactly when it fits. */
  lemma {:induction false} ApplySavedIff(rows: seq<Row>, saved: seq<Row>, donates: seq<Donate>)
    requires Consistent(rows, donates) && Covered(rows, donates)
    ensures Consistent(ApplySaved(rows, saved), donates) <==> SavedFits(rows, saved)
    decreases |saved|
  {
    hide IdFor, FirstRow, SavedFits;
    if saved == [] {
      assert SavedFits(rows, saved) by { NothingSaved(rows); }
    } else {
      var s := saved[0];
      match FirstRow(rows, s.organisation)
      case None =>
        var next := rows + [s];
        NoRowNoDonate(rows, donates, s.organisation);
        forall k | 0 <= k < |rows| ensures rows[k].organisation != s.organisation { assert rows[k] in rows; }
        if s.donateId.None? {
          AppendKeeps(rows, s, donates);
          ApplySavedIff(next, saved[1..], donates);
          OrganisationsAppend(rows, s);
          SavedFitsTail(rows, saved, next);
        } else {
          RowStays(next, saved[1..], |rows|);
          assert !SavedFits(rows, saved) by { Misfit(rows, saved); }
        }
      case Some(i) =>
        var next := rows[i := rows[i].(amount := s.amount)];
        AmountKeeps(rows, i, s.amount, donates);
        ApplySavedIff(next, saved[1..], donates);
        OrganisationsAmount(rows, i, s.amount);
        SavedFitsTail(rows, saved, next);
    }
  }

  lemma NothingSaved(rows: seq<Row>)
    ensures SavedFits(rows, [])
  {}

  lemma Misfit(rows: seq<Row>, saved: seq<Row>)
    requires saved != [] && Appended(rows, saved, 0) && saved[0].donateId.Some?
    ensures !SavedFits(rows, saved)
  {}

  lemma OrganisationsAppend(rows: seq<Row>, s: Row)
    ensures forall org :: HasRow(rows + [s], org) <==> org == s.organisation || HasRow(rows, org)
  {
    forall org | HasRow(rows, org) ensures HasRow(rows + [s], org) {
      var k :| 0 <= k < |rows| && rows[k].organisation == org;
      assert (rows + [s])[k].organisation == org;
    }
    assert (rows + [s])[|rows|].organisation == s.organisation;
  }

  lemma OrganisationsAmount(rows: seq<Row>, i: nat, amount: int)
    requires i < |rows|
    ensures var next := rows[i := rows[i].(amount := amount)];
            forall org :: HasRow(next, org) <==> org == rows[i].organisation || HasRow(rows, org)
  {
    var next := rows[i := rows[i].(amount := amount)];
    forall org | HasRow(rows, org) ensures HasRow(next, org) {
      var k :| 0 <= k < |rows| && rows[k].organisation == org;
      assert next[k].organisation == org;
    }
    assert next[i].organisation == rows[i].organisation;
  }

  lemma NoRowNoDonate(rows: seq<Row>, donates: seq<Donate>, org: Id)
    requires Covered(rows, donates)
    ensures FirstRow(rows, org).None? ==> IdFor(donates, org).None?
  {
    hide FirstRow, FirstDonate;
    var i := FirstDonate(donates, org);
    if i.Some? { assert FirstRow(rows, donates[i.value].organisation).Some?; }
  }

  lemma AppendConsistent(rows: seq<Row>, s: Row, donates: seq<Donate>)
    requires Consistent(rows, donates)
    requires FirstRow(rows, s.organisation).None? && s.donateId == IdFor(donates, s.organisation)
    ensures Consistent(rows + [s], donates)
  {
    hide FirstRow, IdFor;
    var all := rows + [s];
    forall i, j | 0 <= i < j < |all| ensures all[i].organisation != all[j].organisation {
      if j == |rows| { assert rows[i] in rows; }
    }
  }

  lemma StillThere(rows: seq<Row>, s: Row, org: Id)
    ensures FirstRow(rows, org).Some? ==> FirstRow(rows + [s], org).Some?
  {
    hide FirstRow;
    var k := FirstRow(rows, org);
    if k.Some? {
      assert (rows + [s])[k.value] == rows[k.value];
      FirstRowFinds(rows + [s], k.value);
    }
  }

  lemma AppendKeeps(rows: seq<Row>, s: Row, donates: seq<Donate>)
    requires Consistent(rows, donates) && Covered(rows, donates)
    requires FirstRow(rows, s.organisation).None? && s.donateId == IdFor(donates, s.organisation)
    ensures Consistent(rows + [s], donates) && Covered(rows + [s], donates)
  {
    hide FirstRow, IdFor, Consistent;
    AppendConsistent(rows, s, donates);
    AppendCovers(rows, s, donates);
  }

  /** Changing amounts touches neither organisations nor donate ids. */
  lemma AmountKeeps(rows: seq<Row>, i: nat, amount: int, donates: seq<Donate>)
    requires i < |rows|
    ensures Linked(rows, donates) ==> Linked(rows[i := rows[i].(amount := amount)], donates)
    ensures Consistent(rows, donates) ==> Consistent(rows[i := rows[i].(amount := amount)], donates)
    ensures Covered(rows, donates) ==> Covered(rows[i := rows[i].(amount := amount)], donates)
  {
    hide FirstRow, IdFor;
    var all := rows[i := rows[i].(amount := amount)];
    if Covered(rows, donates) {
      forall k | 0 <= k < |donates| ensures FirstRow(all, donates[k].organisation).Some? {
        FirstRowFinds(all, FirstRow(rows, donates[k].organisation).value);
      }
    }
  }

  /** After the monthly load every stored donate has a row; and the table has one row per organisation with the right
      donate ids, exactly when no row that a saved bucket appends carries the id of a donate. */
  lemma MergedConsistent(causes: Option<seq<Id>>, donates: seq<Donate>, saved: Option<seq<Row>>, donateAmount: int)
    requires (causes.Some? ==> Distinct(causes.value)) && UniqueOrganisations(donates)
    ensures Covered(Merged(causes, donates, saved, donateAmount), donates)
    ensures Consistent(Merged(causes, donates, saved, donateAmount), donates) <==>
            (saved.Some? ==> SavedFits(Loaded(causes, donates), saved.value))
  {
    hide Loaded, ApplySaved, Consistent, Covered, SavedFits;
    LoadedConsistent(causes, donates);
    var rows := Loaded(causes, donates);
    if saved.Some? {
      ApplySavedIff(rows, saved.value, donates);
      ApplySavedCovers(rows, saved.value, donates);
    } else if |rows| == 1 {
      AmountKeeps(rows, 0, donateAmount, donates);
      assert [rows[0].(amount := donateAmount)] == rows[0 := rows[0].(amount := donateAmount)];
    }
  }

  lemma AppendLinked(rows: seq<Row>, s: Row, donates: seq<Donate>)
    requires Linked(rows, donates) && FirstRow(rows, s.organisation).None?
    requires IdFor(donates, s.organisation).Some? ==> s.donateId == IdFor(donates, s.organisation)
    ensures Linked(rows + [s], donates)
  {
    hide FirstRow, IdFor;
    var all := rows + [s];
    forall i, j | 0 <= i < j < |all| ensures all[i].organisation != all[j].organisation {
      if j == |rows| { assert rows[i] in rows; }
    }
  }

  lemma {:induction false} ApplySavedLinked(rows: seq<Row>, saved: seq<Row>, donates: seq<Donate>)
    requires Linked(rows, donates) && Covered(rows, donates)
    ensures Linked(ApplySaved(rows, saved), donates)
    decreases |saved|
  {
    hide IdFor, FirstRow, Linked, Covered;
    if saved != [] {
      var s := saved[0];
      match FirstRow(rows, s.organisation)
      case None =>
        NoRowNoDonate(rows, donates, s.organisation);
        AppendLinked(rows, s, donates);
        AppendCovers(rows, s, donates);
        ApplySavedLinked(rows + [s], saved[1..], donates);
      case Some(i) =>
        AmountKeeps(rows, i, s.amount, donates);
        ApplySavedLinked(rows[i := rows[i].(amount := s.amount)], saved[1..], donates);
    }
  }

  lemma AppendCovers(rows: seq<Row>, s: Row, donates: seq<Donate>)
    requires Covered(rows, donates)
    ensures Covered(rows + [s], donates)
  {
    hide FirstRow;
    forall i | 0 <= i < |donates| ensures FirstRow(rows + [s], donates[i].organisation).Some? {
      StillThere(rows, s, donates[i].organisation);
    }
  }

  /** Whatever a saved bucket brings, after the monthly load each stored donate is linked to its organisation's row. */
  lemma MergedLinked(causes: Option<seq<Id>>, donates: seq<Donate>, saved: Option<seq<Row>>, donateAmount: int)
    requires (causes.Some? ==> Distinct(causes.value)) && UniqueOrganisations(donates)
    ensures Linked(Merged(causes, donates, saved, donateAmount), donates)
  {
    hide Loaded, ApplySaved, Covered;
    LoadedConsistent(causes, donates);
    var rows := Loaded(causes, donates);
    if saved.Some? {
      ApplySavedLinked(rows, saved.value, donates);
    } else if |rows| == 1 {
      AmountKeeps(rows, 0, donateAmount, donates);
      assert [rows[0].(amount := donateAmount)] == rows[0 := rows[0].(amount := donateAmount)];
    }
  }

  /** A row saved with the id of a donate that has since been deleted, for an organisation outside the cause: the table
      ends up with an id that no stored donate has. */
  lemma StaleSavedRow(amount: int, org: Id, id: Id, donateAmount: int)
    ensures !Consistent(Merged(None, [], Some([Row(amount, org, Some(id))]), donateAmount), [])
  {
    var saved := [Row(amount, org, Some(id))];
    MergedConsistent(None, [], Some(saved), donateAmount);
    assert Appended(Loaded(None, []), saved, 0);
  }

  // ---------------------------------------------------------------- editing

  datatype Edit = SetAmount(row: nat, amount: int) | Delete(row: nat) | ResetAmounts(donateAmount: int)

  function ZeroAmounts(rows: seq<Row>): (r: seq<Row>)
    ensures |r| == |rows| && forall i | 0 <= i < |r| :: r[i] == rows[i].(amount := 0)
  {
    seq(|rows|, i requires 0 <= i < |rows| => rows[i].(amount := 0))
  }

  /** A slider, delete or amount-change action on the table; the slider delivers amounts from zero up. */
  predicate Allowed(rows: seq<Row>, e: Edit) {
    match e
    case SetAmount(i, a) => i < |rows| && a >= 0
    case Delete(i) => i < |rows|
    case ResetAmounts(_) => true
  }

  function Apply(rows: seq<Row>, e: Edit): seq<Row>
    requires Allowed(rows, e)
  {
    match e
    case SetAmount(i, a) => rows[i := rows[i].(amount := a)]
    case Delete(i) => rows[..i] + rows[i + 1..]
    case ResetAmounts(_) => ZeroAmounts(rows)
  }

  /** The table after a session of edits; edits that cannot happen are left out. */
  function ApplyAll(rows: seq<Row>, edits: seq<Edit>): seq<Row>
    decreases |edits|
  {
    if edits == [] then rows
    else ApplyAll(if Allowed(rows, edits[0]) then Apply(rows, edits[0]) else rows, edits[1..])
  }

  lemma EditKeeps(rows: seq<Row>, e: Edit, donates: seq<Donate>)
    requires Allowed(rows, e) && NonNegative(rows)
    ensures NonNegative(Apply(rows, e))
    ensures Linked(rows, donates) ==> Linked(Apply(rows, e), donates)
    ensures Consistent(rows, donates) ==> Consistent(Apply(rows, e), donates)
  {
    hide IdFor, FirstRow;
    if e.SetAmount? { AmountKeeps(rows, e.row, e.amount, donates); }
  }

  /** Whatever the user does to the table, its rows stay linked to the stored donates, and free of other ids if they
      were. */
  lemma {:induction false} EditsKeep(rows: seq<Row>, edits: seq<Edit>, donates: seq<Donate>)
    requires NonNegative(rows)
    ensures NonNegative(ApplyAll(rows, edits))
    ensures Linked(rows, donates) ==> Linked(ApplyAll(rows, edits), donates)
    ensures Consistent(rows, donates) ==> Consistent(ApplyAll(rows, edits), donates)
    decreases |edits|
  {
    hide Consistent, Linked, NonNegative, Apply;
    if edits != [] {
      if Allowed(rows, edits[0]) {
        EditKeeps(rows, edits[0], donates);
        EditsKeep(Apply(rows, edits[0]), edits[1..], donates);
      } else {
        EditsKeep(rows, edits[1..], donates);
      }
    }
  }

  // ---------------------------------------------------------------- handing over

  /** showDonateConfirmation: the table, and a row of amount zero for each donate whose organisation left it. */
  function ToPass(table: seq<Row>, donates: seq<Donate>): seq<Row> {
    if donates == [] then table
    else
      var d, front := donates[|donates| - 1], ToPass(table, donates[..|donates| - 1]);
      if FirstRow(table, d.organisation).None? then front + [Row(0, d.organisation, Some(d.id))] else front
  }

  /** The rows passed on after the first `n` donates. */
  ghost predicate Passed(table: seq<Row>, donates: seq<Donate>, n: nat, all: seq<Row>)
    requires n <= |donates|
  {
    && table <= all && Linked(all, donates) && NonNegative(all) && Sum(all) == Sum(table)
    && (forall i | |table| <= i < |all| :: exists k :: 0 <= k < n && all[i].organisation == donates[k].organisation)
    && forall k | 0 <= k < n :: FirstRow(all, donates[k].organisation).Some?
  }

  lemma {:induction false} ToPassRows(table: seq<Row>, donates: seq<Donate>, n: nat)
    requires n <= |donates| && Linked(table, donates) && UniqueOrganisations(donates) && NonNegative(table)
    ensures Passed(table, donates, n, ToPass(table, donates[..n]))
    decreases n
  {
    hide FirstRow, IdFor, FirstDonate, Passed, Linked, UniqueOrganisations;
    if n == 0 {
      assert donates[..0] == [];
      assert Passed(table, donates, 0, table) by { PassedAtStart(table, donates); }
    } else {
      ToPassRows(table, donates, n - 1);
      assert donates[..n][..n - 1] == donates[..n - 1];
      var d := donates[n - 1];
      var front := ToPass(table, donates[..n - 1]);
      if FirstRow(table, d.organisation).None? {
        PassedAppend(table, donates, n, front);
      } else {
        PassedSkip(table, donates, n, front);
      }
    }
  }

  lemma PassedAtStart(table: seq<Row>, donates: seq<Donate>)
    requires Linked(table, donates) && NonNegative(table)
    ensures Passed(table, donates, 0, table)
  {}

  lemma PassedSkip(table: seq<Row>, donates: seq<Donate>, n: nat, front: seq<Row>)
    requires 0 < n <= |donates| && Passed(table, donates, n - 1, front)
    requires FirstRow(table, donates[n - 1].organisation).Some?
    ensures Passed(table, donates, n, front)
  {
    hide FirstRow, IdFor, Linked, NonNegative, Sum;
    var k := FirstRow(table, donates[n - 1].organisation).value;
    assert front[k] == table[k];
    FirstRowFinds(front, k);
  }

  lemma PassedAppend(table: seq<Row>, donates: seq<Donate>, n: nat, front: seq<Row>)
    requires 0 < n <= |donates| && UniqueOrganisations(donates) && Passed(table, donates, n - 1, front)
    requires FirstRow(table, donates[n - 1].organisation).None?
    ensures Passed(table, donates, n, front + [Row(0, donates[n - 1].organisation, Some(donates[n - 1].id))])
  {
    hide FirstRow, IdFor, Sum, Linked;
    var d := donates[n - 1];
    var row := Row(0, d.organisation, Some(d.id));
    var all := front + [row];
    assert Sum(all) == Sum(front) by { SumAppend(front, row); }
    forall i | 0 <= i < |front| ensures front[i].organisation != d.organisation {
      if i < |table| { assert front[i] == table[i] && table[i] in table; }
    }
    assert FirstRow(front, d.organisation).None?;
    FirstDonateFinds(donates, n - 1);
    AppendLinked(front, row, donates);
    forall k | 0 <= k < n ensures FirstRow(all, donates[k].organisation).Some? {
      if k < n - 1 { StillThere(front, row, donates[k].organisation); } else { FirstRowFinds(all, |front|); }
    }
    assert all[|front|].organisation == donates[n - 1].organisation;
  }

  lemma SumAppend(rows: seq<Row>, row: Row)
    ensures Sum(rows + [row]) == Sum(rows) + row.amount
  {
    assert (rows + [row])[..|rows|] == rows;
  }

  /** What the confirmation screen receives: the table's rows first and unchanged, one row per organisation, each
      linked to its donate, every stored donate among them, and the same total. */
  lemma HandOver(table: seq<Row>, donates: seq<Donate>)
    requires Linked(table, donates) && UniqueOrganisations(donates) && NonNegative(table)
    ensures var all := ToPass(table, donates);
            && table <= all && Linked(all, donates) && NonNegative(all) && Covered(all, donates)
            && Sum(all) == Sum(table)
            && forall i | |table| <= i < |all| :: IdFor(donates, all[i].organisation).Some?
    ensures Consistent(table, donates) ==> Consistent(ToPass(table, donates), donates)
  {
    hide FirstRow, FirstDonate, IdFor;
    assert donates[..|donates|] == donates;
    ToPassRows(table, donates, |donates|);
    var all := ToPass(table, donates);
    forall i | |table| <= i < |all| ensures IdFor(donates, all[i].organisation).Some? {
      var k :| 0 <= k < |donates| && all[i].organisation == donates[k].organisation;
      FirstDonateFinds(donates, k);
    }
    assert forall i | 0 <= i < |table| :: all[i] == table[i];
  }

  // ---------------------------------------------------------------- the view controller

  class MyBucket {
    const isOneTimePaymentMode: bool
    var organizations: Option<seq<Id>>
    var donates: seq<Donate>
    var tableData: seq<Row>
    var donateAmount: int

    constructor (isOneTimePaymentMode: bool, organizations: Option<seq<Id>>, donates: seq<Donate>, donateAmount: int)
      ensures this.isOneTimePaymentMode == isOneTimePaymentMode
      ensures this.organizations == organizations && this.donates == donates && this.donateAmount == donateAmount
      ensures tableData == []
    {
      this.isOneTimePaymentMode := isOneTimePaymentMode;
      this.organizations, this.donates, this.donateAmount, this.tableData := organizations, donates, donateAmount, [];
    }

    /** loadDataCompletionHandler; `saved` is a saved bucket of the same type. A monthly one can only have been saved
        while the load was under way, since an earlier one is shown without loading. */
    method LoadDataCompletionHandler(success: bool, saved: Option<seq<Row>>)
      modifies this`tableData
      ensures tableData ==
              if !success then old(tableData)
              else if isOneTimePaymentMode then MergedOnce(organizations, donates, saved, donateAmount)
              else Merged(organizations, donates, saved, donateAmount)
    {
      hide CauseRows, LeftOver, ApplySaved;
      if !success { return; }
      var causes := if organizations.Some? then organizations.value else [];
      var tableDataResult, donatesToAdd := MergeCauses(causes, donates);
      if !isOneTimePaymentMode {
        ghost var causeRows := tableDataResult;
        for n := 0 to |donatesToAdd|
          invariant tableDataResult == causeRows + DonateRows(donatesToAdd)[..n]
        {
          var d := donatesToAdd[n];
          tableDataResult := tableDataResult + [Row(d.amount, d.organisation, Some(d.id))];
        }
        assert tableDataResult == Loaded(organizations, donates);
      }
      if saved.Some? {
        tableDataResult := OverwriteWithSaved(tableDataResult, saved.value);
      } else if |tableDataResult| == 1 {
        tableDataResult := tableDataResult[0 := tableDataResult[0].(amount := donateAmount)];
      }
      tableData := tableDataResult;
    }

    /** Its loop over the cause's organisations: their rows, and the donates they leave. */
    static method MergeCauses(causes: seq<Id>, donates: seq<Donate>)
      returns (tableDataResult: seq<Row>, donatesToAdd: seq<Donate>)
      ensures tableDataResult == CauseRows(causes, donates) && donatesToAdd == LeftOver(causes, donates)
    {
      hide CauseRow, Without;
      tableDataResult, donatesToAdd := [], donates;
      for n := 0 to |causes|
        invariant CauseRows(causes, donates) == tableDataResult + CauseRows(causes[n..], donatesToAdd)
        invariant LeftOver(causes, donates) == LeftOver(causes[n..], donatesToAdd)
      {
        assert causes[n..][1..] == causes[n + 1..];
        var item;
        item, donatesToAdd := TakeCause(causes[n], donatesToAdd);
        tableDataResult := tableDataResult + [item];
      }
      assert causes[|causes|..] == [] && tableDataResult + [] == tableDataResult;
    }

    static method TakeCause(org: Id, donates: seq<Donate>) returns (item: Row, donatesToAdd: seq<Donate>)
      ensures item == CauseRow(donates, org) && donatesToAdd == Without(donates, org)
    {
      item, donatesToAdd := Row(0, org, None), donates;
      var index := FirstDonate(donates, org);
      if index.Some? {
        var i := index.value;
        item := item.(amount := donates[i].amount, donateId := Some(donates[i].id));
        donatesToAdd := donates[..i] + donates[i + 1..];
      }
    }

    static method OverwriteWithSaved(rows: seq<Row>, saved: seq<Row>) returns (result: seq<Row>)
      ensures result == ApplySaved(rows, saved)
    {
      hide FirstRow;
      result := rows;
      for n := 0 to |saved|
        invariant ApplySaved(rows, saved) == ApplySaved(result, saved[n..])
      {
        assert saved[n..][1..] == saved[n + 1..];
        var index := FirstRow(result, saved[n].organisation);
        if index.Some? { result := result[index.value := result[index.value].(amount := saved[n].amount)]; }
        else { result := result + [saved[n]]; }
      }
    }

    /** onSliderActionMoved, onDeleteAction, and the amount screen's onContinueAction. */
    method OnEdit(e: Edit)
      requires Allowed(tableData, e)
      modifies this`tableData, this`donateAmount
      ensures tableData == Apply(old(tableData), e)
      ensures donateAmount == if e.ResetAmounts? then e.donateAmount else old(donateAmount)
    {
      match e {
        case SetAmount(i, a) => tableData := tableData[i := tableData[i].(amount := a)];
        case Delete(i) => tableData := tableData[..i] + tableData[i + 1..];
        case ResetAmounts(a) =>
          donateAmount := a;
          ghost var before := tableData;
          for i := 0 to |tableData|
            invariant |tableData| == |before| && donateAmount == a
            invariant forall k | 0 <= k < |before| ::
                      tableData[k] == if k < i then before[k].(amount := 0) else before[k]
          {
            tableData := tableData[i := tableData[i].(amount := 0)];
          }
      }
    }

    /** updateUI: the button is enabled when the rows add up to the amount to donate. */
    method UpdateUI() returns (enabled: bool)
      ensures enabled <==> Sum(tableData) == donateAmount
    {
      var totalSum := 0;
      for i := 0 to |tableData|
        invariant totalSum == Sum(tableData[..i])
      {
        assert tableData[..i + 1][..i] == tableData[..i];
        totalSum := totalSum + tableData[i].amount;
      }
      assert tableData[..|tableData|] == tableData;
      return totalSum == donateAmount;
    }

    /** The rows showDonateConfirmation passes on. */
    method ShowDonateConfirmation() returns (items: seq<Row>)
      ensures items == if isOneTimePaymentMode then tableData else ToPass(tableData, donates)
    {
      hide FirstRow;
      items := tableData;
      if isOneTimePaymentMode { return; }
      for i := 0 to |donates|
        invariant items == ToPass(tableData, donates[..i])
      {
        assert donates[..i + 1][..i] == donates[..i];
        if FirstRow(tableData, donates[i].organisation).None? {
          items := items + [Row(0, donates[i].organisation, Some(donates[i].id))];
        }
      }
      assert donates[..|donates|] == donates;
    }
  }
}
