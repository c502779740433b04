/**
 * Admin::BaseController (app/controllers/admin/base_controller.rb): every
 * admin action runs the application's authentication filter and then
 * `ensure_admin`.
 */
module AdminBase {

  import opened Basics
  import opened Users
  import Application
  import Web

  /** `ensure_admin`: anyone but a signed-in admin is sent to root with "Access denied.". */
  function EnsureAdmin(user: Option<User>): (g: Web.Gate)
    ensures g.Proceed? <==> user.Some? && IsAdmin(user.value)
    ensures g.Halt? ==> g == Web.Halt(Web.Root, Web.Alert(Web.AccessDenied))
  {
    if user.Some? && IsAdmin(user.value) then Web.Proceed else Web.Halt(Web.Root, Web.Alert(Web.AccessDenied))
  }

  /** The filters of an admin controller, in the order they run. */
  function AdminFilters(c: Application.Controller, a: Web.ActionName, user: Option<User>): (g: Web.Gate)
    requires c == Application.AdminDebtsController || c == Application.AdminDashboardController
    ensures g.Proceed? <==> user.Some? && IsAdmin(user.value)
  {
    Web.Then(Application.Authenticate(c, a, user), EnsureAdmin(user))
  }

  /**
   * Who is turned away, and how: a visitor goes to sign in, except on show,
   * where only the admin check runs and answers "Access denied."; a signed-in
   * non-admin always gets "Access denied.".
   */
  lemma AdminFiltersOutcomes(c: Application.Controller, a: Web.ActionName, user: Option<User>)
    requires c == Application.AdminDebtsController || c == Application.AdminDashboardController
    ensures user.None? && a != Web.ShowAction ==>
      AdminFilters(c, a, user) == Web.Halt(Web.SignInPage, Web.Alert(Web.Unauthenticated))
    ensures user.None? && a == Web.ShowAction ==>
      AdminFilters(c, a, user) == Web.Halt(Web.Root, Web.Alert(Web.AccessDenied))
    ensures user.Some? && !IsAdmin(user.value) ==>
      AdminFilters(c, a, user) == Web.Halt(Web.Root, Web.Alert(Web.AccessDenied))
  {
  }
}
