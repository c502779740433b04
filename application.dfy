/**
 * ApplicationController (app/controllers/application_controller.rb): the
 * locale filter, the authentication filter and where it applies, the
 * post-login redirect and the handler for CanCan's AccessDenied.
 */
module Application {

  import opened Basics
  import opened Users
  import Ability
  import Web

  // ------------------------------------------------------------------ locale

  /** config.i18n.available_locales = [:cs, :en]; the default is :cs. */
  datatype Locale = Cs | En

  const DefaultLocale: Locale := Cs

  function AvailableLocale(name: string): (r: Option<Locale>)
    ensures r == Some(Cs) <==> name == "cs"
    ensures r == Some(En) <==> name == "en"
  {
    if name == "cs" then Some(Cs) else if name == "en" then Some(En) else None
  }

  /** What `set_locale` as written leaves behind: a locale, or I18n::InvalidLocale raised. */
  datatype LocaleOutcome = LocaleSet(locale: Locale) | InvalidLocale

  /**
   * `set_locale` as written. The first assignment takes `params[:locale]` when
   * given (an empty string included) and the default otherwise. I18n refuses
   * to be set to a locale that is not available (enforce_available_locales,
   * on by default), so that assignment raises for any other value, before the
   * fallback on the next line is reached.
   */
  function SetLocaleAsWritten(param: Option<string>): (r: LocaleOutcome)
    ensures param.None? ==> r == LocaleSet(DefaultLocale)
    ensures param.Some? ==> (r.InvalidLocale? <==> AvailableLocale(param.value).None?)
    ensures param.Some? && r.LocaleSet? ==> Some(r.locale) == AvailableLocale(param.value)
  {
    var first := if param.Some? then AvailableLocale(param.value) else Some(DefaultLocale);
    if first.None? then InvalidLocale
    // the fallback of line 12: never taken, since `first` is an available locale here
    else LocaleSet(first.value)
  }

  /** An unsupported locale in the query, such as `?locale=de`, ends the request in an error. */
  lemma UnsupportedLocaleRaises()
    ensures SetLocaleAsWritten(Some("de")) == InvalidLocale
    ensures SetLocaleAsWritten(Some("")) == InvalidLocale
  {
  }

  /**
   * `set_locale` as evidently intended: the requested locale when it is
   * available, the default otherwise.
   */
  function SetLocale(param: Option<string>): (r: Locale)
    ensures r == En <==> param == Some("en")
  {
    if param.Some? && AvailableLocale(param.value).Some? then AvailableLocale(param.value).value
    else DefaultLocale
  }

  /** The intended filter agrees with the written one wherever that one does not raise. */
  lemma SetLocaleAgreesWhenDefined(param: Option<string>)
    ensures SetLocaleAsWritten(param).LocaleSet? ==> SetLocaleAsWritten(param).locale == SetLocale(param)
    ensures SetLocaleAsWritten(param).InvalidLocale? ==> SetLocale(param) == DefaultLocale
  {
  }

  // ---------------------------------------------------------- authentication

  /** The controllers of the model. */
  datatype Controller =
    | AdminDebtsController | AdminDashboardController | CustomerDebtsController | PublicDebtsController

  /**
   * Whether `authenticate_user!` runs before the action. ApplicationController
   * demands it except for show; Customer::DebtsController declares it again
   * without the exception, and PublicDebtsController skips it.
   */
  predicate AuthenticationDemanded(c: Controller, a: Web.ActionName) {
    match c
    case PublicDebtsController => false
    case CustomerDebtsController => true
    case _ => a != Web.ShowAction
  }

  /** `authenticate_user!`: with nobody signed in, Devise sends the visitor to sign in. */
  function Authenticate(c: Controller, a: Web.ActionName, user: Option<User>): (g: Web.Gate)
    ensures g.Halt? <==> AuthenticationDemanded(c, a) && user.None?
    ensures g.Halt? ==> g == Web.Halt(Web.SignInPage, Web.Alert(Web.Unauthenticated))
  {
    if AuthenticationDemanded(c, a) && user.None? then Web.Halt(Web.SignInPage, Web.Alert(Web.Unauthenticated))
    else Web.Proceed
  }

  /** Under the inherited filter, exactly the show actions are open to visitors. */
  lemma InheritedFilterSparesOnlyShow(a: Web.ActionName)
    ensures AuthenticationDemanded(AdminDebtsController, a) <==> a != Web.ShowAction
    ensures AuthenticationDemanded(AdminDashboardController, a) <==> a != Web.ShowAction
    ensures AuthenticationDemanded(CustomerDebtsController, a)
    ensures !AuthenticationDemanded(PublicDebtsController, a)
  {
  }

  // -------------------------------------------------------- sign-in, denial

  /** `after_sign_in_path_for`: admins land on the admin dashboard, everyone else on root. */
  function AfterSignInPath(u: User): (l: Web.Location)
    ensures l == Web.AdminRoot <==> IsAdmin(u)
    ensures l == Web.Root <==> !IsAdmin(u)
  {
    if IsAdmin(u) then Web.AdminRoot else Web.Root
  }

  /**
   * `authorize!` followed by the `rescue_from CanCan::AccessDenied` handler:
   * a refused query becomes a redirect to root with "Access denied.". No
   * action of the application calls `authorize!`, so no request reaches the
   * handler; this states what it would answer.
   */
  function Authorize(user: Option<User>, a: Ability.Action, s: Ability.Subject): (g: Web.Gate)
    ensures g.Proceed? <==> Ability.Permits(user, a, s)
    ensures g.Halt? ==> g == Web.Halt(Web.Root, Web.Alert(Web.AccessDenied))
  {
    if Ability.Permits(user, a, s) then Web.Proceed else Web.Halt(Web.Root, Web.Alert(Web.AccessDenied))
  }

  /**
   * Were an action to `authorize! :show` another customer's debt, the handler
   * would send the customer to root with "Access denied.". No action does:
   * the customer controller answers "Debt not found." instead
   * (`CustomerDebts.NotFoundIsUniform`).
   */
  lemma ForeignDebtDenied(u: User, other: nat)
    requires IsCustomer(u) && other != u.id
    ensures Authorize(Some(u), Ability.Show, Ability.DebtRecord(Some(other))) == Web.Halt(Web.Root, Web.Alert(Web.AccessDenied))
  {
    Ability.CustomerReadsOnlyOwn(u, Ability.Show, Some(other));
  }
}
