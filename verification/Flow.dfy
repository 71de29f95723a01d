/** From the stored donates to the stored donates: the fetch feeds the bucket, and the bucket's confirmation changes
    what the next fetch will find. */
module Flow {
  import opened Common
  import Organisations
  import opened Bucket
  import opened Confirmation
  import opened Reconciliation

  /** DonateItem as the bucket uses it: the organisation matters by its id. */
  function Known(donates: seq<Organisations.Donate>): (r: seq<Donate>)
    ensures |r| == |donates|
  {
    seq(|donates|, i requires 0 <= i < |donates| =>
      Donate(donates[i].id, donates[i].amount, donates[i].organisation.id))
  }

  /** The documents fetchDonateRefs returned: each once, with amount and organisation. */
  ghost predicate RefsOf(refs: seq<Organisations.DonateRef>, base: map<Id, Doc>) {
    && (forall i, j | 0 <= i < j < |refs| :: refs[i].id != refs[j].id)
    && forall i | 0 <= i < |refs| ::
         refs[i].id in base && base[refs[i].id] == Doc(Some(refs[i].amount), Some(refs[i].organisationId))
  }

  ghost predicate OnePerOrganisation(refs: seq<Organisations.DonateRef>) {
    forall i, j | 0 <= i < j < |refs| :: refs[i].organisationId != refs[j].organisationId
  }

  /** The ref a delivered donate comes from. */
  lemma {:induction false} DonateRefOf(refs: seq<Organisations.DonateRef>, seen: map<Id, Organisations.Organisation>,
                                       i: nat)
    returns (p: nat)
    requires Organisations.ValidDb(seen) && i < |Organisations.Existing(refs, seen)|
    ensures p < |refs| && refs[p].organisationId in seen
    ensures Known(Organisations.Existing(refs, seen))[i] == Donate(refs[p].id, refs[p].amount, refs[p].organisationId)
    decreases |refs|
  {
    var n := |refs| - 1;
    var front := Organisations.Existing(refs[..n], seen);
    if i < |front| { p := DonateRefOf(refs[..n], seen, i); } else { p := n; }
  }

  /** In stored order. */
  lemma {:induction false} DonateOrder(refs: seq<Organisations.DonateRef>, seen: map<Id, Organisations.Organisation>,
                                       i: nat, j: nat)
    returns (p: nat, q: nat)
    requires Organisations.ValidDb(seen) && i < j < |Organisations.Existing(refs, seen)|
    ensures p < q < |refs|
    ensures Known(Organisations.Existing(refs, seen))[i] == Donate(refs[p].id, refs[p].amount, refs[p].organisationId)
    ensures Known(Organisations.Existing(refs, seen))[j] == Donate(refs[q].id, refs[q].amount, refs[q].organisationId)
    decreases |refs|
  {
    var n := |refs| - 1;
    var front := Organisations.Existing(refs[..n], seen);
    if j < |front| {
      p, q := DonateOrder(refs[..n], seen, i, j);
    } else {
      p := DonateRefOf(refs[..n], seen, i);
      q := n;
    }
  }

  /** What fetchDonates delivers was loaded from the store. */
  lemma FetchedLoaded(refs: seq<Organisations.DonateRef>, seen: map<Id, Organisations.Organisation>, base: map<Id, Doc>)
    requires Organisations.ValidDb(seen) && RefsOf(refs, base) && OnePerOrganisation(refs)
    ensures LoadedFrom(Known(Organisations.Existing(refs, seen)), base)
  {
    hide Organisations.Existing, Organisations.ValidDb;
    var donates := Known(Organisations.Existing(refs, seen));
    forall i, j | 0 <= i < j < |donates|
      ensures donates[i].id != donates[j].id && donates[i].organisation != donates[j].organisation
    {
      var p, q := DonateOrder(refs, seen, i, j);
    }
    forall i | 0 <= i < |donates|
      ensures donates[i].id in base &&
              base[donates[i].id] == Doc(Some(donates[i].amount), Some(donates[i].organisation))
    {
      var p := DonateRefOf(refs, seen, i);
    }
  }

  lemma VisibleValid(db: map<Id, Organisations.Organisation>, chunks: seq<seq<Id>>, answers: seq<Organisations.Answer>)
    requires Organisations.ValidDb(db)
    ensures Organisations.ValidDb(Organisations.Visible(db, chunks, answers))
  {
    hide Organisations.Reached;
  }

  /** The donates of the user after fetching, in the order and with the failures of the given answers. */
  ghost function Fetched(refs: seq<Organisations.DonateRef>, db: map<Id, Organisations.Organisation>, uniq: seq<Id>,
                         answers: seq<Organisations.Answer>): seq<Donate>
  {
    Known(Organisations.Existing(refs, Organisations.Visible(db, Organisations.Chunked(uniq, 10), answers)))
  }

  /** The whole flow: the stored donates are fetched, with any order of answers and any failures; the bucket is loaded,
      edited and confirmed, and all writes succeed. When the confirmed table is well named the store then holds exactly
      its positive rows, and every donate that a failed chunk query kept from the bucket is as it was unless a row
      names it. */
  lemma StoreToStore(refs: seq<Organisations.DonateRef>, db: map<Id, Organisations.Organisation>, uniq: seq<Id>,
                     answers: seq<Organisations.Answer>, causes: Option<seq<Id>>, saved: Option<seq<Row>>,
                     loadAmount: int, edits: seq<Edit>, donateAmount: int, base: map<Id, Doc>, events: seq<Event>)
    requires Organisations.ValidDb(db) && RefsOf(refs, base) && OnePerOrganisation(refs)
    requires causes.Some? ==> Distinct(causes.value)
    requires NonNegative(Merged(causes, Fetched(refs, db, uniq, answers), saved, loadAmount))
    requires var donates := Fetched(refs, db, uniq, answers);
             var table := ApplyAll(Merged(causes, donates, saved, loadAmount), edits);
             && Sum(table) == donateAmount && WellNamed(table, base)
             && (var run := After(ToPass(table, donates), base, events);
                 run.Some? && Finished(run.value) && run.value.failed == {})
    ensures var donates := Fetched(refs, db, uniq, answers);
            var table := ApplyAll(Merged(causes, donates, saved, loadAmount), edits);
            var m := After(ToPass(table, donates), base, events).value;
            && Reconciled(m, base, donates, table, donateAmount)
            && forall i | 0 <= i < |refs| && !IsRowId(m.rows, refs[i].id) ::
                 refs[i].id in m.store && m.store[refs[i].id] == base[refs[i].id]
  {
    hide After, Merged, ApplyAll, ToPass, WellNamed, NonNegative, Finished, LoadedFrom, Organisations.Visible,
         Organisations.Chunked, Organisations.Existing, IsRowId;
    var chunks := Organisations.Chunked(uniq, 10);
    VisibleValid(db, chunks, answers);
    FetchedLoaded(refs, Organisations.Visible(db, chunks, answers), base);
    MonthlyReconciliation(causes, Fetched(refs, db, uniq, answers), saved, loadAmount, edits, donateAmount, base,
                          events);
  }
}
