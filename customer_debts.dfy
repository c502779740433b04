/**
 * Customer::DebtsController (app/controllers/customer/debts_controller.rb):
 * a signed-in customer lists and opens the debts linked to their account.
 * Lookups go through `current_user.customer_debts`, so a debt that is someone
 * else's, unassigned, or missing gives one and the same answer. The
 * controller only reads, so its actions are functions of the stored rows.
 */
module CustomerDebts {

  import opened Basics
  import opened Debts
  import opened Users
  import Store
  import Application
  import Web

  const DebtNotFound := "Debt not found."

  /** `ensure_customer`: anyone but a signed-in customer is sent to root with "Access denied.". */
  function EnsureCustomer(user: Option<User>): (g: Web.Gate)
    ensures g.Proceed? <==> user.Some? && IsCustomer(user.value)
    ensures g.Halt? ==> g == Web.Halt(Web.Root, Web.Alert(Web.AccessDenied))
  {
    if user.Some? && IsCustomer(user.value) then Web.Proceed else Web.Halt(Web.Root, Web.Alert(Web.AccessDenied))
  }

  /** `authenticate_user!` (declared again here, for every action), then `ensure_customer`. */
  function CustomerFilters(a: Web.ActionName, user: Option<User>): (g: Web.Gate)
    ensures g.Proceed? <==> user.Some? && IsCustomer(user.value)
    ensures user.None? ==> g == Web.Halt(Web.SignInPage, Web.Alert(Web.Unauthenticated))
    ensures user.Some? && !IsCustomer(user.value) ==> g == Web.Halt(Web.Root, Web.Alert(Web.AccessDenied))
  {
    Web.Then(Application.Authenticate(Application.CustomerDebtsController, a, user), EnsureCustomer(user))
  }

  /** `user.customer_debts`: the debts whose customer_user_id is the user's id. */
  function LinkedDebts(ds: seq<Debt>, userId: nat): (r: seq<Debt>)
    ensures forall d :: d in r <==> d in ds && d.customerUserId == Some(userId)
  {
    Filter(ds, (d: Debt) => d.customerUserId == Some(userId))
  }

  /** `index`: `current_user.customer_debts.recent`. */
  function Index(ds: seq<Debt>, user: Option<User>): (r: Web.Response<Debt>)
    ensures CustomerFilters(Web.IndexAction, user).Halt? ==> r == Web.Halted(CustomerFilters(Web.IndexAction, user))
  {
    var g := CustomerFilters(Web.IndexAction, user);
    if g.Halt? then Web.Halted(g)
    else Web.Rendered(Web.DebtList(Recent(LinkedDebts(ds, user.value.id))), Web.OK)
  }

  /** `set_debt` + `show`: `current_user.customer_debts.find(params[:id])`. */
  function Show(ds: seq<Debt>, user: Option<User>, id: int): (r: Web.Response<Debt>)
    ensures CustomerFilters(Web.ShowAction, user).Halt? ==> r == Web.Halted(CustomerFilters(Web.ShowAction, user))
  {
    var g := CustomerFilters(Web.ShowAction, user);
    if g.Halt? then Web.Halted(g)
    else
      match Store.FindById(LinkedDebts(ds, user.value.id), id)
      case Some(d) => Web.Rendered(Web.DebtPage(d), Web.OK)
      case None => Web.Redirect(Web.CustomerDebtsIndex, Web.Alert(DebtNotFound))
  }

  // ------------------------------------------------------------- properties

  /** The index lists exactly the customer's linked debts, newest first. */
  lemma IndexListsOwnDebts(ds: seq<Debt>, u: User)
    requires IsCustomer(u)
    ensures Index(ds, Some(u)).Rendered? && Index(ds, Some(u)).view.DebtList?
    ensures NewestFirst(Index(ds, Some(u)).view.debts)
    ensures forall d :: d in Index(ds, Some(u)).view.debts <==> d in ds && d.customerUserId == Some(u.id)
    ensures multiset(Index(ds, Some(u)).view.debts) == multiset(LinkedDebts(ds, u.id))
  {
    RecentSameRows(LinkedDebts(ds, u.id));
  }

  /** A debt linked to the customer opens. */
  lemma ShowOwnDebt(ds: seq<Debt>, u: User, d: Debt)
    requires IsCustomer(u) && Store.DistinctIds(ds)
    requires d in ds && d.customerUserId == Some(u.id)
    ensures Show(ds, Some(u), d.id) == Web.Rendered(Web.DebtPage(d), Web.OK)
  {
    var f := Store.FindById(LinkedDebts(ds, u.id), d.id);
    assert f.Some?;
    var i :| 0 <= i < |ds| && ds[i] == d;
    var j :| 0 <= j < |ds| && ds[j] == f.value;
    assert i == j;
  }

  /**
   * Someone else's debt, an unassigned debt and a missing id all give the same
   * answer: back to the list with "Debt not found.". Any other id opens a debt.
   */
  lemma NotFoundIsUniform(ds: seq<Debt>, u: User, id: int)
    requires IsCustomer(u)
    ensures Show(ds, Some(u), id) == Web.Redirect(Web.CustomerDebtsIndex, Web.Alert(DebtNotFound))
      <==> forall d :: d in ds && d.id == id ==> d.customerUserId != Some(u.id)
  {
    if !(forall d :: d in ds && d.id == id ==> d.customerUserId != Some(u.id)) {
      var d :| d in ds && d.id == id && d.customerUserId == Some(u.id);
      assert d in LinkedDebts(ds, u.id);
    }
  }

  /** A debt addressed to the customer's e-mail but not linked to the account is never shown. */
  lemma EmailMatchWithoutLinkInvisible(ds: seq<Debt>, u: User, d: Debt)
    requires IsCustomer(u) && Store.DistinctIds(ds)
    requires d in ds && d.customerEmail == u.email && d.customerUserId != Some(u.id)
    ensures d !in Index(ds, Some(u)).view.debts
    ensures Show(ds, Some(u), d.id) == Web.Redirect(Web.CustomerDebtsIndex, Web.Alert(DebtNotFound))
  {
    IndexListsOwnDebts(ds, u);
    forall e | e in ds && e.id == d.id ensures e.customerUserId != Some(u.id) {
      var i :| 0 <= i < |ds| && ds[i] == d;
      var j :| 0 <= j < |ds| && ds[j] == e;
      assert i == j;
    }
    NotFoundIsUniform(ds, u, d.id);
  }

  /** What a customer sees depends on their own linked debts and on nothing else in the table. */
  lemma Isolation(ds: seq<Debt>, es: seq<Debt>, u: User, id: int)
    requires LinkedDebts(ds, u.id) == LinkedDebts(es, u.id)
    ensures Index(ds, Some(u)) == Index(es, Some(u))
    ensures Show(ds, Some(u), id) == Show(es, Some(u), id)
  {
  }
}
