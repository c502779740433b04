/**
 * DebtCreationService (app/services/debt_creation_service.rb): in one
 * transaction, create the debt on behalf of the admin, mail the customer, and
 * mark the debt notified. Whatever raises inside the block rolls the whole
 * transaction back, the sent mail included in the sense that no debt is left
 * for it; only RecordInvalid is caught (and raised again) by the service.
 */
module DebtCreationService {

  import opened Basics
  import opened Debts
  import opened Users
  import opened Store
  import Web

  /** How `call` ends: with the created debt, with RecordInvalid for the unsaved record, or with another error. */
  datatype Outcome = Created(debt: Debt) | RecordInvalid(record: Debt) | Raised

  /** `Debt.new(debt_params.merge(admin_user: admin))` before its callbacks run. */
  function Draft(p: Web.Params, admin: User): (r: Option<Debt>)
    ensures r.Some? ==> r.value.adminUserId == Some(admin.id)
    ensures r.None? <==> AssignAttributes(NewDebt(), p).None?
  {
    match AssignAttributes(NewDebt(), p)
    case None => None
    case Some(d) => Some(d.(adminUserId := Some(admin.id)))
  }

  /** The draft of a hash that names no status is pending, as the column default says. */
  lemma DraftIsPending(p: Web.Params, admin: User)
    requires "status" !in p && Draft(p, admin).Some?
    ensures Draft(p, admin).value.status == Some(Pending)
  {
    AssignKeepsUnnamed(NewDebt(), p);
  }

  /** How far `create_debt` gets before the INSERT: a record ready to insert, or the outcome that stops it. */
  datatype Prepared = Ready(debt: Debt) | Stop(outcome: Outcome)

  /**
   * `Debt.create!` up to the INSERT: build the draft, draw the token, validate,
   * and let the database's column and foreign-key constraints refuse the row.
   * A blank status passes validation as nil and is refused only here.
   */
  method Prepare(db: Database, p: Web.Params, admin: User, draws: seq<string>) returns (r: Prepared)
    requires db.Valid()
    ensures r.Stop? ==> !r.outcome.Created?
    ensures Draft(p, admin).None? ==> r == Stop(Raised)
    ensures r.Stop? && r.outcome.RecordInvalid? ==>
      Draft(p, admin).Some? && r.outcome.record == Draft(p, admin).value.(token := r.outcome.record.token)
      && !IsValid(r.outcome.record, db.debts)
    // validation comes first: an invalid draft is RecordInvalid, even with a blank status
    ensures Draft(p, admin).Some? && !AttributesValid(Draft(p, admin).value) ==> r.Stop? && r.outcome.RecordInvalid?
    ensures r.Ready? ==>
      Draft(p, admin).Some? && r.debt == Draft(p, admin).value.(token := r.debt.token)
      && TokenUnique(r.debt.token, db.debts)
      && IsValid(r.debt, db.debts) && FitsColumns(r.debt) && LinksOk(r.debt, db.users)
    ensures Draft(p, admin).Some? && AttributesValid(Draft(p, admin).value)
      && FitsColumns(Draft(p, admin).value) && LinksOk(Draft(p, admin).value, db.users)
      && (exists k :: 0 <= k < |draws| && TokenUnique(draws[k], db.debts))
      ==> r.Ready?
  {
    var draft := Draft(p, admin);
    if draft.None? {
      // the status enum refused the value, or an attribute is unknown: ArgumentError or UnknownAttributeError
      return Stop(Raised);
    }
    // before_validation on: :create
    var token := GenerateSecureToken(draft.value.token, db.debts, draws);
    var d := draft.value.(token := token);
    ValidIff(d, db.debts);
    if !IsValid(d, db.debts) {
      return Stop(RecordInvalid(d));
    }
    if !FitsColumns(d) || !LinksOk(d, db.users) {
      // numeric field overflow, NOT NULL violation or foreign key violation
      return Stop(Raised);
    }
    return Ready(d);
  }

  /**
   * `call`. `draws` are the successive values SecureRandom would produce;
   * `mailFails` says whether `deliver_now` raises.
   */
  method Call(db: Database, p: Web.Params, admin: User, now: int, draws: seq<string>, mailFails: bool)
    returns (outcome: Outcome)
    modifies db
    requires db.Valid()
    ensures db.Valid() && db.users == old(db.users)
    // a failure leaves no debt and no mail behind
    ensures !outcome.Created? ==> db.debts == old(db.debts) && db.deliveries == old(db.deliveries)
    ensures Draft(p, admin).None? ==> outcome == Raised
    ensures outcome.RecordInvalid? ==>
      Draft(p, admin).Some? && outcome.record == Draft(p, admin).value.(token := outcome.record.token)
      && !IsValid(outcome.record, old(db.debts))
    ensures Draft(p, admin).Some? && !AttributesValid(Draft(p, admin).value) ==> outcome.RecordInvalid?
    // success: exactly one new row, notified now, and exactly one mail for it
    ensures outcome.Created? ==>
      Draft(p, admin).Some?
      && outcome.debt == Draft(p, admin).value.(
           token := outcome.debt.token, id := old(db.nextDebtId), createdAt := now, updatedAt := now,
           status := Some(Notified), notifiedAt := Some(now))
      && TokenUnique(outcome.debt.token, old(db.debts))
      && db.debts == old(db.debts) + [outcome.debt]
      && db.deliveries == old(db.deliveries) + [NotificationFor(outcome.debt)]
    // a send that raises undoes the whole call
    ensures mailFails ==> !outcome.Created?
    ensures Draft(p, admin).Some? && AttributesValid(Draft(p, admin).value)
      && FitsColumns(Draft(p, admin).value) && LinksOk(Draft(p, admin).value, old(db.users))
      && (exists k :: 0 <= k < |draws| && TokenUnique(draws[k], old(db.debts)))
      && !mailFails
      ==> outcome.Created?
  {
    var r := Prepare(db, p, admin, draws);
    if r.Stop? {
      return r.outcome;
    }
    outcome := Persist(db, r.debt, now, mailFails);
  }

  /**
   * `call` as its integration test expects it to behave: a send that raises
   * is not allowed to undo the debt, which stays stored, unnotified.
   */
  method CallKeepingDebt(db: Database, p: Web.Params, admin: User, now: int, draws: seq<string>, mailFails: bool)
    returns (outcome: Outcome)
    modifies db
    requires db.Valid()
    ensures db.Valid() && db.users == old(db.users)
    ensures !outcome.Created? ==> db.debts == old(db.debts) && db.deliveries == old(db.deliveries)
    ensures Draft(p, admin).None? ==> outcome == Raised
    ensures outcome.RecordInvalid? ==>
      Draft(p, admin).Some? && outcome.record == Draft(p, admin).value.(token := outcome.record.token)
      && !IsValid(outcome.record, old(db.debts))
    ensures Draft(p, admin).Some? && !AttributesValid(Draft(p, admin).value) ==> outcome.RecordInvalid?
    // a created debt is stored whether or not the send went through
    ensures outcome.Created? ==>
      Draft(p, admin).Some?
      && outcome.debt.(status := Draft(p, admin).value.status, notifiedAt := None) ==
         Draft(p, admin).value.(token := outcome.debt.token, id := old(db.nextDebtId), createdAt := now, updatedAt := now)
      && TokenUnique(outcome.debt.token, old(db.debts))
      && db.debts == old(db.debts) + [outcome.debt]
    ensures outcome.Created? && !mailFails ==>
      outcome.debt.status == Some(Notified) && outcome.debt.notifiedAt == Some(now)
      && db.deliveries == old(db.deliveries) + [NotificationFor(outcome.debt)]
    ensures outcome.Created? && mailFails ==>
      outcome.debt.status == Draft(p, admin).value.status && outcome.debt.notifiedAt.None?
      && db.deliveries == old(db.deliveries)
    // a valid draft with a usable token is created, the send failing or not
    ensures Draft(p, admin).Some? && AttributesValid(Draft(p, admin).value)
      && FitsColumns(Draft(p, admin).value) && LinksOk(Draft(p, admin).value, old(db.users))
      && (exists k :: 0 <= k < |draws| && TokenUnique(draws[k], old(db.debts)))
      ==> outcome.Created?
  {
    var r := Prepare(db, p, admin, draws);
    if r.Stop? {
      return r.outcome;
    }
    outcome := PersistKeepingDebt(db, r.debt, now, mailFails);
  }

  /** A row just appended under a fresh id: the others are the rows that were there before. */
  lemma AppendedRowOthers(ds: seq<Debt>, stored: Debt, n: Debt)
    requires forall o :: o in ds ==> o.id != stored.id
    requires n.id == stored.id
    ensures forall o :: o in Without(ds + [stored], stored.id) <==> o in ds
    ensures Replace(ds + [stored], n) == ds + [n]
  {
    var r := Replace(ds + [stored], n);
    assert |r| == |ds + [n]|;
    forall i | 0 <= i < |r| ensures r[i] == (ds + [n])[i] {
      if i < |ds| {
        assert ds[i] in ds;
      }
    }
  }

  /**
   * The part of `call` after validation: INSERT, send, then
   * `update!(status: :notified, notified_at: Time.current)`. A raising send
   * rolls the insert back.
   */
  method Persist(db: Database, d: Debt, now: int, mailFails: bool) returns (outcome: Outcome)
    modifies db
    requires db.Valid()
    requires IsValid(d, db.debts) && FitsColumns(d) && LinksOk(d, db.users)
    ensures db.Valid() && db.users == old(db.users)
    ensures mailFails ==> outcome == Raised && db.debts == old(db.debts) && db.deliveries == old(db.deliveries)
    ensures !mailFails ==>
      outcome == Created(d.(id := old(db.nextDebtId), createdAt := now, updatedAt := now,
                            status := Some(Notified), notifiedAt := Some(now)))
      && db.debts == old(db.debts) + [outcome.debt]
      && db.deliveries == old(db.deliveries) + [NotificationFor(outcome.debt)]
  {
    var snapshot := db.debts;
    var stored := db.Insert(d, now);
    if mailFails {
      db.RollbackDebts(snapshot);
      return Raised;
    }
    db.Deliver(NotificationFor(stored));
    var notified := stored.(status := Some(Notified), notifiedAt := Some(now), updatedAt := now);
    AppendedRowOthers(snapshot, stored, notified);
    assert stored in db.debts;
    ValidIff(d, snapshot);
    ValidIff(notified, Without(db.debts, stored.id));
    db.Write(notified);
    return Created(notified);
  }

  /**
   * `Persist` with the send's failure kept out of the transaction: the
   * inserted row stays, pending as it was, and no mail is recorded.
   */
  method PersistKeepingDebt(db: Database, d: Debt, now: int, mailFails: bool) returns (outcome: Outcome)
    modifies db
    requires db.Valid()
    requires IsValid(d, db.debts) && FitsColumns(d) && LinksOk(d, db.users)
    ensures db.Valid() && db.users == old(db.users)
    ensures outcome.Created? && db.debts == old(db.debts) + [outcome.debt]
    ensures mailFails ==>
      outcome.debt == d.(id := old(db.nextDebtId), createdAt := now, updatedAt := now)
      && db.deliveries == old(db.deliveries)
    ensures !mailFails ==>
      outcome == Created(d.(id := old(db.nextDebtId), createdAt := now, updatedAt := now,
                            status := Some(Notified), notifiedAt := Some(now)))
      && db.deliveries == old(db.deliveries) + [NotificationFor(outcome.debt)]
  {
    var snapshot := db.debts;
    var stored := db.Insert(d, now);
    if mailFails {
      // the error is rescued outside the transaction, which has committed
      return Created(stored);
    }
    db.Deliver(NotificationFor(stored));
    var notified := stored.(status := Some(Notified), notifiedAt := Some(now), updatedAt := now);
    AppendedRowOthers(snapshot, stored, notified);
    assert stored in db.debts;
    ValidIff(d, snapshot);
    ValidIff(notified, Without(db.debts, stored.id));
    db.Write(notified);
    return Created(notified);
  }
}
