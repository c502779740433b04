/**
 * PublicDebtsController (app/controllers/public_debts_controller.rb): the page
 * a notification e-mail links to. Anyone holding a token may open it, signed
 * in or not. The first visit of a pending debt marks it viewed, whoever the
 * visitor is; the debt's details are disclosed only to the customer the debt
 * is linked to.
 */
module PublicDebts {

  import opened Basics
  import opened Debts
  import opened Users
  import opened Store
  import Web

  const PageNotFound := "Page not found."

  /** `track_debt_view` on one row: a pending debt becomes viewed at `now`; any other is left as it is. */
  function TrackedView(d: Debt, now: int): (r: Debt)
    ensures r.(status := d.status, viewedAt := d.viewedAt) == d
    ensures r.status == (if d.status == Some(Pending) then Some(Viewed) else d.status)
    ensures d.status == Some(Pending) ==> r.viewedAt == Some(now)
    ensures d.status != Some(Pending) ==> r == d
  {
    if d.status == Some(Pending) then d.(status := Some(Viewed), viewedAt := Some(now)) else d
  }

  /** A second view changes nothing: the first one already left the debt non-pending. */
  lemma TrackTwice(d: Debt, first: int, second: int)
    ensures TrackedView(TrackedView(d, first), second) == TrackedView(d, first)
  {
  }

  /** `show`: the data and the details flag the page is rendered with. */
  function Disclose(d: Debt, viewer: Option<User>): (v: Web.View<Debt>)
    ensures v.PublicDebtPage?
    ensures v.showFullDetails <==> viewer.Some? && IsCustomer(viewer.value) && d.customerUserId == Some(viewer.value.id)
    ensures v.showFullDetails ==> v.debtData == Some(d)
    ensures !v.showFullDetails ==> v.debtData == None
  {
    if viewer.Some? && IsCustomer(viewer.value) && d.customerUserId == Some(viewer.value.id) then
      Web.PublicDebtPage(Some(d), true)
    else
      Web.PublicDebtPage(None, false)
  }

  /** An admin, a stranger, or any other customer who holds the token sees no data. */
  lemma TokenAloneDisclosesNothing(d: Debt, viewer: Option<User>)
    requires viewer.None? || !IsCustomer(viewer.value) || d.customerUserId != Some(viewer.value.id)
    ensures Disclose(d, viewer) == Web.PublicDebtPage(None, false)
  {
  }

  /** The debts table after a visit with `token`. */
  function TrackedStore(ds: seq<Debt>, token: string, now: int): (r: seq<Debt>)
    ensures FindByToken(ds, token).None? ==> r == ds
    ensures |r| == |ds|
  {
    match FindByToken(ds, token)
    case None => ds
    case Some(d) => Replace(ds, TrackedView(d, now))
  }

  /**
   * A visit touches only the row holding the token, and of that row only
   * status and viewed_at.
   */
  lemma VisitChangesOnlyThatRow(ds: seq<Debt>, token: string, now: int)
    requires DistinctIds(ds) && DistinctTokens(ds)
    ensures forall i :: 0 <= i < |ds| && ds[i].token != token ==> TrackedStore(ds, token, now)[i] == ds[i]
    ensures forall i :: 0 <= i < |ds| && ds[i].token == token ==> TrackedStore(ds, token, now)[i] == TrackedView(ds[i], now)
  {
    var f := FindByToken(ds, token);
    if f.Some? {
      var d := f.value;
      var k :| 0 <= k < |ds| && ds[k] == d;
      forall i | 0 <= i < |ds| && ds[i].id == d.id ensures i == k {
      }
      FirstTokenIsOnlyToken(ds, token);
    }
  }

  /** With distinct tokens, the row find_by returns is the only one holding the token. */
  lemma FirstTokenIsOnlyToken(ds: seq<Debt>, token: string)
    ensures FindByToken(ds, token).Some? && DistinctTokens(ds) ==>
      forall i :: 0 <= i < |ds| && ds[i].token == token ==> ds[i] == FindByToken(ds, token).value
  {
    if FindByToken(ds, token).Some? && DistinctTokens(ds) {
      var d := FindByToken(ds, token).value;
      var k :| 0 <= k < |ds| && ds[k] == d;
      forall i | 0 <= i < |ds| && ds[i].token == token ensures ds[i] == d {
        assert i == k;
      }
    }
  }

  /** After a visit the same token finds the tracked row. */
  lemma {:induction false} FindAfterReplace(ds: seq<Debt>, d: Debt, n: Debt)
    requires DistinctIds(ds) && FindByToken(ds, d.token) == Some(d)
    requires n.id == d.id && n.token == d.token
    ensures FindByToken(Replace(ds, n), d.token) == Some(n)
  {
    var r := Replace(ds, n);
    if ds[0].token != d.token {
      assert d in ds[1..];
      assert ds[0].id != d.id;
      assert r[1..] == Replace(ds[1..], n);
      FindAfterReplace(ds[1..], d, n);
    }
  }

  /** Visiting twice leaves the table as the first visit left it. */
  lemma SecondVisitChangesNothing(ds: seq<Debt>, token: string, first: int, second: int)
    requires DistinctIds(ds)
    ensures TrackedStore(TrackedStore(ds, token, first), token, second) == TrackedStore(ds, token, first)
  {
    var f := FindByToken(ds, token);
    if f.Some? {
      var d := f.value;
      var n := TrackedView(d, first);
      FindAfterReplace(ds, d, n);
      TrackTwice(d, first, second);
      var r := Replace(ds, n);
      var rr := Replace(r, n);
      assert |rr| == |r|;
      forall i | 0 <= i < |r| ensures rr[i] == r[i] {
      }
    }
  }

  /** A visit keeps the store invariant. */
  lemma VisitKeepsInvariant(ds: seq<Debt>, us: seq<User>, token: string, now: int)
    requires StoreInvariant(ds, us)
    ensures StoreInvariant(TrackedStore(ds, token, now), us)
  {
    var f := FindByToken(ds, token);
    if f.Some? {
      var d := f.value;
      if d.status == Some(Pending) {
        SetStatusKeepsInvariant(ds, us, d, Viewed, Some(now));
      } else {
        assert Replace(ds, d) == ds;
      }
    }
  }

  /**
   * GET /pohledavky/:token. `set_debt` looks the token up; a miss redirects to
   * root with "Page not found." and the other filters and the action do not
   * run. `track_debt_view` then updates the row in place, and `show` decides
   * what to disclose from the updated record.
   */
  method Show(db: Database, token: string, viewer: Option<User>, now: int) returns (resp: Web.Response<Debt>)
    modifies db
    requires db.Valid()
    ensures db.Valid()
    ensures db.debts == TrackedStore(old(db.debts), token, now)
    ensures db.users == old(db.users) && db.deliveries == old(db.deliveries) && db.nextDebtId == old(db.nextDebtId)
    ensures FindByToken(old(db.debts), token).None? ==> resp == Web.Redirect(Web.Root, Web.Alert(PageNotFound))
    ensures FindByToken(old(db.debts), token).Some? ==>
      resp == Web.Rendered(Disclose(TrackedView(FindByToken(old(db.debts), token).value, now), viewer), Web.OK)
  {
    var found := FindByToken(db.debts, token);
    if found.None? {
      return Web.Redirect(Web.Root, Web.Alert(PageNotFound));
    }
    var d := found.value;
    if d.status == Some(Pending) {
      db.SetStatusColumns(d, Viewed, Some(now));
    } else {
      assert Replace(db.debts, d) == db.debts;
    }
    resp := Web.Rendered(Disclose(TrackedView(d, now), viewer), Web.OK);
  }
}
