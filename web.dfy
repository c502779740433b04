/**
 * What a controller action produces: a redirect with a flash message, a
 * rendered view with an HTTP status, or an error status raised by an
 * exception that no controller rescues. Request parameters are modelled as a
 * map from parameter name to a typed value.
 */
module Web {

  import Basics

  /** A request parameter value (form fields arrive already typed here). */
  datatype Value = Int(i: int) | Str(s: string) | Null

  type Params = map<string, Value>

  datatype Location =
    | Root                       // root_path
    | AdminRoot                  // admin_root_path (the dashboard)
    | AdminDebtsIndex            // admin_debts_path
    | AdminDebtPage(id: nat)     // admin_debt_path(debt)
    | CustomerDebtsIndex         // customer_debts_path
    | SignInPage                 // new_user_session_path (Devise)
    | EditRegistrationPage       // edit_user_registration_path

  datatype Flash = Alert(text: string) | Notice(text: string) | NoFlash

  /** The views the modelled actions render; the debts they show are their data. */
  datatype View<D> =
    | DebtList(debts: seq<D>)
    | DebtPage(debt: D)
    | PublicDebtPage(debtData: Basics.Option<D>, showFullDetails: bool)
    | NewForm(draft: D)
    | EditForm(draft: D)
    | DashboardPage(total: nat, pending: nat, overdue: nat, recent: seq<D>)

  datatype Response<D> =
    | Redirect(location: Location, flash: Flash)
    | Rendered(view: View<D>, status: nat)
    | HttpError(status: nat)

  /** The controller actions the modelled controllers define. */
  datatype ActionName = IndexAction | ShowAction | NewAction | CreateAction | EditAction | UpdateAction | DestroyAction

  /** Outcome of a before_action filter: go on to the action, or halt with a redirect. */
  datatype Gate = Proceed | Halt(location: Location, flash: Flash)

  /** Filters run in order: the first that halts decides. */
  function Then(first: Gate, second: Gate): (g: Gate)
    ensures g.Proceed? <==> first.Proceed? && second.Proceed?
    ensures first.Halt? ==> g == first
  {
    if first.Halt? then first else second
  }

  /** The redirect a halting filter answers with. */
  function Halted<D>(g: Gate): (r: Response<D>)
    requires g.Halt?
    ensures r.Redirect? && r.location == g.location && r.flash == g.flash
  {
    Redirect(g.location, g.flash)
  }

  const OK: nat := 200
  const BadRequest: nat := 400
  const NotFound: nat := 404
  const UnprocessableEntity: nat := 422
  const InternalServerError: nat := 500

  const AccessDenied := "Access denied."

  /** The flash Devise sets when authentication is demanded (its translation key). */
  const Unauthenticated := "devise.failure.unauthenticated"
}
