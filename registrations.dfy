/**
 * Users::RegistrationsController (app/controllers/users/registrations_controller.rb):
 * Devise's sign-up and account pages, with three changes: every web sign-up
 * becomes a customer, the extra permitted keys are cut to none, and only an
 * admin may delete their account.
 */
module Registrations {

  import opened Basics
  import opened Users
  import Store
  import Web

  // ------------------------------------------------------ permitted params

  datatype SanitizerAction = SignUp | AccountUpdate

  /** The keys Devise's parameter sanitizer permits on its own. */
  function DeviseKeys(a: SanitizerAction): (keys: set<string>)
    ensures "role" !in keys
    ensures {"email", "password", "password_confirmation"} <= keys
  {
    match a
    case SignUp => {"email", "password", "password_confirmation"}
    case AccountUpdate => {"email", "password", "password_confirmation", "current_password"}
  }

  /** `configure_permitted_parameters` of ApplicationController: role added to both. */
  const ApplicationExtraKeys: set<string> := {"role"}

  /** The override here, which replaces it for this controller: nothing added. */
  const RegistrationsExtraKeys: set<string> := {}

  /** `sign_up_params` / `account_update_params`: the submitted hash cut to the permitted keys. */
  function Sanitize(a: SanitizerAction, extra: set<string>, p: Web.Params): (r: Web.Params)
    ensures r.Keys == p.Keys * (DeviseKeys(a) + extra)
    ensures forall k :: k in r ==> r[k] == p[k]
  {
    map k | k in p.Keys * (DeviseKeys(a) + extra) :: p[k]
  }

  /** Here, no submitted role survives sanitising, on sign-up or on account update. */
  lemma RoleNeverPermitted(a: SanitizerAction, p: Web.Params)
    ensures "role" !in Sanitize(a, RegistrationsExtraKeys, p)
    ensures Sanitize(a, RegistrationsExtraKeys, p).Keys == p.Keys * DeviseKeys(a)
  {
  }

  /** The application's version, were it not overridden, would let a submitted role through. */
  lemma ApplicationVersionPermitsRole(a: SanitizerAction, p: Web.Params)
    requires "role" in p
    ensures "role" in Sanitize(a, ApplicationExtraKeys, p)
    ensures Sanitize(a, ApplicationExtraKeys, p)["role"] == p["role"]
  {
  }

  // ---------------------------------------------------------- build_resource

  /** The hash `build_resource` receives; it writes the role into it. */
  class ResourceHash {
    var entries: Web.Params

    constructor (entries: Web.Params)
      ensures this.entries == entries
    {
      this.entries := entries;
    }
  }

  /** The hash after `build_resource` on `action`: on create its role is customer, whatever it was. */
  function Forced(entries: Web.Params, action: Web.ActionName): (r: Web.Params)
    ensures action == Web.CreateAction ==>
      r.Keys == entries.Keys + {"role"} && r["role"] == Web.Str("customer")
      && forall k :: k in entries && k != "role" ==> r[k] == entries[k]
    ensures action != Web.CreateAction ==> r == entries
  {
    if action == Web.CreateAction then entries["role" := Web.Str("customer")] else entries
  }

  /** The enum cast of a role value, by name or by number. */
  function RoleParam(v: Web.Value): (r: Option<Role>)
    ensures v == Web.Str("customer") || v == Web.Int(1) <==> r == Some(Customer)
    ensures v == Web.Str("admin") || v == Web.Int(0) <==> r == Some(Admin)
  {
    match v
    case Str(s) => if s == "admin" then Some(Admin) else if s == "customer" then Some(Customer) else None
    case Int(n) => if n == 0 then Some(Admin) else if n == 1 then Some(Customer) else None
    case Null => None
  }

  /** The role of `User.new(hash)`: nil when the hash names none (an unknown name raises; see README). */
  function BuiltRole(entries: Web.Params): (r: Option<Role>)
    ensures "role" !in entries ==> r.None?
  {
    if "role" in entries then RoleParam(entries["role"]) else None
  }

  /** `build_resource(hash)`: set the role on create, then build the user from the hash. */
  method BuildResource(h: ResourceHash, action: Web.ActionName) returns (role: Option<Role>)
    modifies h
    ensures h.entries == Forced(old(h.entries), action)
    ensures role == BuiltRole(h.entries)
  {
    if action == Web.CreateAction {
      h.entries := h.entries["role" := Web.Str("customer")];
    }
    role := BuiltRole(h.entries);
  }

  /** A web sign-up always builds a customer, whatever was submitted. */
  lemma SignUpBuildsCustomer(p: Web.Params)
    ensures BuiltRole(Forced(Sanitize(SignUp, RegistrationsExtraKeys, p), Web.CreateAction)) == Some(Customer)
  {
  }

  /** On any other action the hash is left as it is, so a hash without role builds a user without one. */
  lemma OtherActionsKeepHash(entries: Web.Params, action: Web.ActionName)
    requires action != Web.CreateAction
    ensures Forced(entries, action) == entries
    ensures "role" !in entries ==> BuiltRole(Forced(entries, action)).None?
  {
  }

  // ------------------------------------------------------------------ destroy

  const DestroyRefused := "Nemáte oprávnění k zrušení účtu. Kontaktujte administrátora."

  /** The flash Devise sets after deleting an account (its translation key). */
  const AccountDestroyed := "devise.registrations.destroyed"

  /** Devise's `authenticate_scope!`, prepended to edit, update and destroy: nobody signed in goes to sign in. */
  function AuthenticateScope(user: Option<User>): (g: Web.Gate)
    ensures g.Proceed? <==> user.Some?
  {
    if user.Some? then Web.Proceed else Web.Halt(Web.SignInPage, Web.Alert(Web.Unauthenticated))
  }

  /** `ensure_admin_for_destroy`: anyone but an admin is sent back to the account page. */
  function EnsureAdminForDestroy(user: Option<User>): (g: Web.Gate)
    ensures g.Proceed? <==> user.Some? && IsAdmin(user.value)
    ensures g.Halt? ==> g == Web.Halt(Web.EditRegistrationPage, Web.Alert(DestroyRefused))
  {
    if user.Some? && IsAdmin(user.value) then Web.Proceed
    else Web.Halt(Web.EditRegistrationPage, Web.Alert(DestroyRefused))
  }

  /** The filters of destroy, in the order they run. */
  function DestroyFilters(user: Option<User>): (g: Web.Gate)
    ensures g.Proceed? <==> user.Some? && IsAdmin(user.value)
    ensures user.Some? && !IsAdmin(user.value) ==> g == Web.Halt(Web.EditRegistrationPage, Web.Alert(DestroyRefused))
  {
    Web.Then(AuthenticateScope(user), EnsureAdminForDestroy(user))
  }

  /**
   * DELETE of the own account: the filters, then Devise's `destroy` on
   * current_user, which nullifies their customer links or is refused when
   * they created debts (DeleteRestrictionError, 500).
   */
  method Destroy(db: Store.Database, user: Option<User>) returns (resp: Web.Response<User>)
    modifies db
    requires db.Valid()
    ensures db.Valid() && db.deliveries == old(db.deliveries)
    ensures DestroyFilters(user).Halt? ==>
      resp == Web.Halted(DestroyFilters(user)) && db.debts == old(db.debts) && db.users == old(db.users)
    ensures DestroyFilters(user).Proceed? ==>
      var id := user.value.id;
      if forall d :: d in old(db.debts) ==> d.adminUserId != Some(id) then
        resp == Web.Redirect(Web.Root, Web.Notice(AccountDestroyed))
        && db.debts == Store.NullifyCustomer(old(db.debts), id) && db.users == Store.RemoveUser(old(db.users), id)
      else
        resp == Web.HttpError(Web.InternalServerError) && db.debts == old(db.debts) && db.users == old(db.users)
  {
    var g := DestroyFilters(user);
    if g.Halt? {
      return Web.Halted(g);
    }
    var destroyed := db.DestroyUser(user.value.id);
    if !destroyed {
      return Web.HttpError(Web.InternalServerError);
    }
    return Web.Redirect(Web.Root, Web.Notice(AccountDestroyed));
  }
}
