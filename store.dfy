/**
 * The database as the application sees it: the debts table, the users table,
 * the mails handed to the mailer, and the debts id sequence. The invariant is
 * what the schema and the validations guarantee for every stored row: distinct
 * ids, distinct tokens (the unique index on debts.token), the field rules,
 * amounts that fit numeric(10,2), and user links that resolve (the foreign
 * keys on customer_user_id and admin_user_id).
 */
module Store {

  import opened Basics
  import opened Debts
  import opened Users

  /** A notification e-mail as delivered: recipient, the token its link carries, the debt. */
  datatype Mail = Mail(to: string, token: string, debtId: nat)

  /** `DebtNotificationMailer.debt_notification(debt)`: sent to the customer, linking the token page. */
  function NotificationFor(d: Debt): (m: Mail)
    ensures m.to == d.customerEmail && m.token == d.token && m.debtId == d.id
  {
    Mail(d.customerEmail, d.token, d.id)
  }

  // ------------------------------------------------------------- table views

  /** The stored rows other than the one with this id (the uniqueness query's scope). */
  function Without(ds: seq<Debt>, id: int): (r: seq<Debt>)
    ensures forall d :: d in r <==> d in ds && d.id != id
  {
    Filter(ds, (d: Debt) => d.id != id)
  }

  /** `Debt.find(id)` / `find_by(id:)`: the row with that id, if any. */
  function FindById(ds: seq<Debt>, id: int): (r: Option<Debt>)
    ensures r.Some? ==> r.value in ds && r.value.id == id
    ensures r.None? <==> forall d :: d in ds ==> d.id != id
  {
    if ds == [] then None
    else if ds[0].id == id then Some(ds[0])
    else FindById(ds[1..], id)
  }

  /** `Debt.find_by(token:)`: the row holding that token, if any. */
  function FindByToken(ds: seq<Debt>, token: string): (r: Option<Debt>)
    ensures r.Some? ==> r.value in ds && r.value.token == token
    ensures r.None? <==> forall d :: d in ds ==> d.token != token
  {
    if ds == [] then None
    else if ds[0].token == token then Some(ds[0])
    else FindByToken(ds[1..], token)
  }

  /** Writing row d back: the row with d's id becomes d, every other row stays. */
  function Replace(ds: seq<Debt>, d: Debt): (r: seq<Debt>)
    ensures |r| == |ds|
    ensures forall i :: 0 <= i < |ds| ==> r[i] == (if ds[i].id == d.id then d else ds[i])
  {
    seq(|ds|, i requires 0 <= i < |ds| => if ds[i].id == d.id then d else ds[i])
  }

  /** `dependent: :nullify` for customer_debts: clear customer_user_id where it points at the user. */
  function NullifyCustomer(ds: seq<Debt>, userId: nat): (r: seq<Debt>)
    ensures |r| == |ds|
    ensures forall i :: 0 <= i < |ds| ==>
      r[i] == (if ds[i].customerUserId == Some(userId) then ds[i].(customerUserId := None) else ds[i])
  {
    seq(|ds|, i requires 0 <= i < |ds| =>
      if ds[i].customerUserId == Some(userId) then ds[i].(customerUserId := None) else ds[i])
  }

  function RemoveUser(us: seq<User>, id: nat): (r: seq<User>)
    ensures forall u :: u in r <==> u in us && u.id != id
  {
    Filter(us, (u: User) => u.id != id)
  }

  // --------------------------------------------------------------- invariant

  predicate UserExists(us: seq<User>, id: int) {
    exists u :: u in us && u.id == id
  }

  /** Both foreign keys of the row point at stored users. */
  predicate LinksOk(d: Debt, us: seq<User>) {
    (d.customerUserId.Some? ==> UserExists(us, d.customerUserId.value))
    && (d.adminUserId.Some? ==> UserExists(us, d.adminUserId.value))
  }

  ghost predicate DistinctIds(ds: seq<Debt>) {
    forall i, j :: 0 <= i < j < |ds| ==> ds[i].id != ds[j].id
  }

  ghost predicate DistinctTokens(ds: seq<Debt>) {
    forall i, j :: 0 <= i < j < |ds| ==> ds[i].token != ds[j].token
  }

  /** What every stored row satisfies on its own. */
  predicate RowOk(d: Debt, us: seq<User>) {
    FieldRulesHold(d) && FitsColumns(d) && LinksOk(d, us)
  }

  ghost predicate StoreInvariant(ds: seq<Debt>, us: seq<User>) {
    DistinctIds(ds) && DistinctTokens(ds) && UsersValid(us)
    && forall d :: d in ds ==> RowOk(d, us)
  }

  /** Under the invariant every stored row passes `valid?` against the rows beside it. */
  lemma StoredRowsAreValid(ds: seq<Debt>, us: seq<User>)
    requires StoreInvariant(ds, us)
    ensures forall d :: d in ds ==> IsValid(d, Without(ds, d.id))
  {
    forall d | d in ds ensures IsValid(d, Without(ds, d.id)) {
      forall o | o in Without(ds, d.id) ensures o.token != d.token {
        var i :| 0 <= i < |ds| && ds[i] == d;
        var j :| 0 <= j < |ds| && ds[j] == o;
        assert i != j;
      }
      ValidIff(d, Without(ds, d.id));
    }
  }

  /** Adding a valid row under a fresh id keeps the invariant. */
  lemma AppendKeepsInvariant(ds: seq<Debt>, us: seq<User>, d: Debt)
    requires StoreInvariant(ds, us)
    requires IsValid(d, ds) && FitsColumns(d) && LinksOk(d, us)
    requires forall o :: o in ds ==> o.id != d.id
    ensures StoreInvariant(ds + [d], us)
  {
    ValidIff(d, ds);
    var r := ds + [d];
    forall i, j | 0 <= i < j < |r| ensures r[i].id != r[j].id && r[i].token != r[j].token {
      if j == |ds| {
        assert r[i] in ds;
        assert !TokenHeld(d.token, ds);
      }
    }
  }

  /** Writing back a row that is valid against the others keeps the invariant. */
  lemma ReplaceKeepsInvariant(ds: seq<Debt>, us: seq<User>, d: Debt)
    requires StoreInvariant(ds, us)
    requires IsValid(d, Without(ds, d.id)) && FitsColumns(d) && LinksOk(d, us)
    ensures StoreInvariant(Replace(ds, d), us)
  {
    ValidIff(d, Without(ds, d.id));
    var r := Replace(ds, d);
    forall i, j | 0 <= i < j < |r| ensures r[i].id != r[j].id && r[i].token != r[j].token {
      if ds[i].id == d.id {
        assert ds[j] in Without(ds, d.id);
      } else if ds[j].id == d.id {
        assert ds[i] in Without(ds, d.id);
      }
    }
    forall x | x in r ensures RowOk(x, us) {
      var k :| 0 <= k < |r| && r[k] == x;
      assert ds[k] in ds;
    }
  }

  /**
   * `update_columns(status:, viewed_at:)` skips validation, but leaves every
   * column the invariant speaks of untouched, so the invariant survives.
   */
  lemma SetStatusKeepsInvariant(ds: seq<Debt>, us: seq<User>, d: Debt, s: Status, at: Option<int>)
    requires StoreInvariant(ds, us) && d in ds
    ensures StoreInvariant(Replace(ds, d.(status := Some(s), viewedAt := at)), us)
  {
    var n := d.(status := Some(s), viewedAt := at);
    var r := Replace(ds, n);
    forall i, j | 0 <= i < j < |r| ensures r[i].id != r[j].id && r[i].token != r[j].token {
      var k :| 0 <= k < |ds| && ds[k] == d;
      assert r[i].id == ds[i].id && r[j].id == ds[j].id;
      if ds[i].id == d.id { assert i == k; }
      if ds[j].id == d.id { assert j == k; }
    }
    forall x | x in r ensures RowOk(x, us) {
      var k :| 0 <= k < |r| && r[k] == x;
      assert ds[k] in ds;
    }
  }

  /** Deleting rows keeps the invariant. */
  lemma WithoutKeepsInvariant(ds: seq<Debt>, us: seq<User>, id: int)
    requires StoreInvariant(ds, us)
    ensures StoreInvariant(Without(ds, id), us)
  {
    FilterPairwise(ds, (d: Debt) => d.id != id, (a: Debt, b: Debt) => a.id != b.id);
    FilterPairwise(ds, (d: Debt) => d.id != id, (a: Debt, b: Debt) => a.token != b.token);
  }

  /** Deleting an id no row has changes nothing. */
  lemma {:induction false} WithoutAbsent(ds: seq<Debt>, id: int)
    requires forall x :: x in ds ==> x.id != id
    ensures Without(ds, id) == ds
  {
    if ds != [] {
      WithoutAbsent(ds[1..], id);
      assert ds == [ds[0]] + ds[1..];
    }
  }

  /** With distinct ids, deleting by the id of a stored row removes that row and no other. */
  lemma {:induction false} WithoutRemovesOne(ds: seq<Debt>, d: Debt)
    requires DistinctIds(ds) && d in ds
    ensures multiset(Without(ds, d.id)) == multiset(ds) - multiset{d}
    ensures |Without(ds, d.id)| == |ds| - 1
  {
    var t := ds[1..];
    DistinctTail(ds);
    WithoutCons(ds, d.id);
    if ds[0] == d {
      WithoutAbsent(t, d.id);
    } else {
      assert d in t;
      WithoutRemovesOne(t, d);
    }
  }

  /** Dropping the first row of a table with distinct ids keeps them distinct, and the head's id is not used again. */
  lemma DistinctTail(ds: seq<Debt>)
    requires DistinctIds(ds) && ds != []
    ensures DistinctIds(ds[1..])
    ensures forall x :: x in ds[1..] ==> x.id != ds[0].id
    ensures multiset(ds) == multiset{ds[0]} + multiset(ds[1..])
  {
    var t := ds[1..];
    forall x | x in t ensures x.id != ds[0].id {
      var k :| 0 <= k < |t| && t[k] == x;
      assert ds[k + 1] == x;
    }
    assert ds == [ds[0]] + t;
  }

  /** Deleting from a non-empty table: the head is kept unless it has the id, then the tail is filtered. */
  lemma WithoutCons(ds: seq<Debt>, id: int)
    requires ds != []
    ensures Without(ds, id) == (if ds[0].id != id then [ds[0]] else []) + Without(ds[1..], id)
  {
    assert ds == [ds[0]] + ds[1..];
  }

  /** Nullifying a customer link changes no debt's id. */
  lemma NullifyKeepsIdBound(ds: seq<Debt>, userId: nat, bound: nat)
    requires forall d :: d in ds ==> d.id < bound
    ensures forall d :: d in NullifyCustomer(ds, userId) ==> d.id < bound
  {
    var r := NullifyCustomer(ds, userId);
    forall d | d in r ensures d.id < bound {
      var k :| 0 <= k < |r| && r[k] == d;
      assert ds[k] in ds;
    }
  }

  /**
   * Destroying a user no debt names as its admin: nullifying the customer
   * links and dropping the user keeps the invariant.
   */
  lemma DestroyUserKeepsInvariant(ds: seq<Debt>, us: seq<User>, id: nat)
    requires StoreInvariant(ds, us)
    requires forall d :: d in ds ==> d.adminUserId != Some(id)
    ensures StoreInvariant(NullifyCustomer(ds, id), RemoveUser(us, id))
  {
    var r, vs := NullifyCustomer(ds, id), RemoveUser(us, id);
    forall x | x in r ensures RowOk(x, vs) {
      var k :| 0 <= k < |r| && r[k] == x;
      assert ds[k] in ds;
      if x.customerUserId.Some? {
        var u :| u in us && u.id == x.customerUserId.value;
        assert u in vs;
      }
      if x.adminUserId.Some? {
        var u :| u in us && u.id == x.adminUserId.value;
        assert u in vs;
      }
    }
    FilterPairwise(us, (u: User) => u.id != id, (a: User, b: User) => a.id != b.id);
  }

  // ---------------------------------------------------------------- database

  class Database {
    var debts: seq<Debt>
    var users: seq<User>
    /** ActionMailer::Base.deliveries: every mail delivered, oldest first. */
    var deliveries: seq<Mail>
    /** The next value of the debts id sequence; a rolled-back insert does not return its id. */
    var nextDebtId: nat

    ghost predicate Valid()
      reads this
    {
      StoreInvariant(debts, users) && forall d :: d in debts ==> d.id < nextDebtId
    }

    constructor (us: seq<User>)
      requires UsersValid(us)
      ensures Valid()
      ensures debts == [] && users == us && deliveries == [] && nextDebtId == 1
    {
      debts := [];
      users := us;
      deliveries := [];
      nextDebtId := 1;
    }

    /** INSERT: the row gets the next id and its timestamps. */
    method Insert(d: Debt, now: int) returns (stored: Debt)
      modifies this
      requires Valid()
      requires IsValid(d, debts) && FitsColumns(d) && LinksOk(d, users)
      ensures Valid()
      ensures stored == d.(id := old(nextDebtId), createdAt := now, updatedAt := now)
      ensures debts == old(debts) + [stored] && nextDebtId == old(nextDebtId) + 1
      ensures users == old(users) && deliveries == old(deliveries)
    {
      stored := d.(id := nextDebtId, createdAt := now, updatedAt := now);
      ValidIff(d, debts);
      ValidIff(stored, debts);
      AppendKeepsInvariant(debts, users, stored);
      debts := debts + [stored];
      nextDebtId := nextDebtId + 1;
    }

    /** UPDATE of one row, written back whole. */
    method Write(d: Debt)
      modifies this
      requires Valid()
      requires FindById(debts, d.id).Some?
      requires IsValid(d, Without(debts, d.id)) && FitsColumns(d) && LinksOk(d, users)
      ensures Valid()
      ensures debts == Replace(old(debts), d)
      ensures users == old(users) && deliveries == old(deliveries) && nextDebtId == old(nextDebtId)
    {
      ReplaceKeepsInvariant(debts, users, d);
      debts := Replace(debts, d);
    }

    /** `update_columns(status:, viewed_at:)` on a stored row: no validation, no updated_at. */
    method SetStatusColumns(d: Debt, s: Status, at: Option<int>)
      modifies this
      requires Valid() && d in debts
      ensures Valid()
      ensures debts == Replace(old(debts), d.(status := Some(s), viewedAt := at))
      ensures users == old(users) && deliveries == old(deliveries) && nextDebtId == old(nextDebtId)
    {
      SetStatusKeepsInvariant(debts, users, d, s, at);
      debts := Replace(debts, d.(status := Some(s), viewedAt := at));
    }

    /** DELETE of the row with this id. */
    method Delete(id: nat)
      modifies this
      requires Valid()
      ensures Valid()
      ensures debts == Without(old(debts), id)
      ensures users == old(users) && deliveries == old(deliveries) && nextDebtId == old(nextDebtId)
    {
      WithoutKeepsInvariant(debts, users, id);
      debts := Without(debts, id);
    }

    /** `deliver_now`: the mail is handed over and recorded. */
    method Deliver(m: Mail)
      modifies this
      ensures deliveries == old(deliveries) + [m]
      ensures debts == old(debts) && users == old(users) && nextDebtId == old(nextDebtId)
    {
      deliveries := deliveries + [m];
    }

    /** ROLLBACK of the debts table to a snapshot taken at BEGIN; the id sequence keeps its value. */
    method RollbackDebts(snapshot: seq<Debt>)
      modifies this
      requires StoreInvariant(snapshot, users) && forall d :: d in snapshot ==> d.id < nextDebtId
      ensures Valid()
      ensures debts == snapshot
      ensures users == old(users) && deliveries == old(deliveries) && nextDebtId == old(nextDebtId)
    {
      debts := snapshot;
    }

    /**
     * `user.destroy` (app/models/user.rb, lines 5-6). The associations'
     * before_destroy callbacks run in declaration order inside one transaction:
     * customer_debts are nullified first, then created_debts raises
     * DeleteRestrictionError if any debt names the user as its admin, and the
     * transaction rolls the nullification back. `destroyed` is false when the
     * destroy was refused.
     */
    method DestroyUser(id: nat) returns (destroyed: bool)
      modifies this
      requires Valid()
      ensures Valid()
      ensures destroyed <==> forall d :: d in old(debts) ==> d.adminUserId != Some(id)
      ensures destroyed ==> debts == NullifyCustomer(old(debts), id) && users == RemoveUser(old(users), id)
      ensures !destroyed ==> debts == old(debts) && users == old(users)
      ensures deliveries == old(deliveries) && nextDebtId == old(nextDebtId)
    {
      var snapshot := debts;
      var nullified := NullifyCustomer(debts, id);
      if exists d :: d in snapshot && d.adminUserId == Some(id) {
        // restrict_with_exception raises: ROLLBACK undoes the nullification
        debts := nullified;
        debts := snapshot;
        return false;
      }
      DestroyUserKeepsInvariant(debts, users, id);
      NullifyKeepsIdBound(debts, id, nextDebtId);
      debts := nullified;
      users := RemoveUser(users, id);
      return true;
    }
  }

  /** After a successful user destroy no debt links to the user, and every debt is still there. */
  lemma NullifyDetachesOnly(ds: seq<Debt>, id: nat)
    ensures forall d :: d in NullifyCustomer(ds, id) ==> d.customerUserId != Some(id)
    ensures forall i :: 0 <= i < |ds| ==>
      NullifyCustomer(ds, id)[i].(customerUserId := ds[i].customerUserId) == ds[i]
  {
  }
}
