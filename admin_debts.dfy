/**
 * Admin::DebtsController (app/controllers/admin/debts_controller.rb): the
 * admin's list, form and record pages, and the actions that create, update
 * and delete debts. Every action first passes the admin filters.
 *
 * The state-changing actions are methods on the Database; each is proved to
 * do what a pure function of the old state describes (`UpdateEffect`,
 * `DestroyEffect`), and the properties are proved about those functions.
 */
module AdminDebts {

  import opened Basics
  import opened Debts
  import opened Users
  import opened Store
  import opened SqlLike
  import AdminBase
  import Application
  import DebtCreationService
  import Web

  const DebtCreated := "Debt was successfully created."
  const DebtUpdated := "Debt was successfully updated."
  const DebtDeleted := "Debt was successfully deleted."

  const Ctl := Application.AdminDebtsController

  // -------------------------------------------------------------- parameters

  /** `permit(:amount, :due_date, :customer_email, :description, :status)`. */
  const PermittedKeys: set<string> := {"amount", "due_date", "customer_email", "description", "status"}

  /** `permit`: the entries of the hash under a permitted key, and no other. */
  function Permit(p: Web.Params): (r: Web.Params)
    ensures r.Keys == p.Keys * PermittedKeys
    ensures forall k :: k in r ==> r[k] == p[k]
  {
    map k | k in p.Keys * PermittedKeys :: p[k]
  }

  /**
   * `debt_params`: `params.require(:debt)` is missing (400 Bad Request) when
   * the :debt hash is absent or empty; otherwise its permitted part.
   */
  function DebtParams(raw: Option<Web.Params>): (r: Option<Web.Params>)
    ensures r.None? <==> raw.None? || |raw.value| == 0
    ensures r.Some? ==> r.value == Permit(raw.value)
  {
    if raw.None? || |raw.value| == 0 then None else Some(Permit(raw.value))
  }

  /** Whatever the form sends, mass assignment never touches the token, the user links, the id or the timestamps. */
  lemma WhitelistProtectsColumns(d: Debt, raw: Web.Params)
    requires AssignAttributes(d, Permit(raw)).Some?
    ensures var a := AssignAttributes(d, Permit(raw)).value;
      a.token == d.token && a.customerUserId == d.customerUserId && a.adminUserId == d.adminUserId
      && a.id == d.id && a.createdAt == d.createdAt && a.updatedAt == d.updatedAt
  {
    AssignKeepsUnnamed(d, Permit(raw));
  }

  /**
   * A permitted hash names only columns a debt has, so assignment fails only
   * on a status the enum refuses; a blank status is assigned, as nil.
   */
  lemma PermittedAssignmentFailsOnlyOnStatus(d: Debt, raw: Web.Params)
    ensures AssignAttributes(d, Permit(raw)).None? <==> "status" in raw && StatusParam(raw["status"]).None?
    ensures AssignAttributes(d, Permit(raw)).None? ==>
      raw["status"] != Web.Null && !(raw["status"].Str? && Blank(raw["status"].s))
    ensures "status" in raw && (raw["status"] == Web.Null || (raw["status"].Str? && Blank(raw["status"].s))) ==>
      AssignAttributes(d, Permit(raw)).Some? && AssignAttributes(d, Permit(raw)).value.status.None?
  {
  }

  // ------------------------------------------------------------------- index

  const PerPage: nat := 25

  /**
   * The status `where(status: params[:status])` asks for. An enum name stands
   * for its status. Any other string goes through the integer type: one that
   * starts like a number (`NumericStart`) is read with `to_i`, one that does
   * not becomes NULL. NULL, or an integer outside the enum, is a condition no
   * stored row meets (None).
   */
  function StatusCondition(v: string): (r: Option<Status>)
    ensures StatusFromName(v).Some? ==> r == StatusFromName(v)
    ensures StatusFromName(v).None? ==> (r.Some? <==> NumericStart(v) && 0 <= RubyToI(v) <= 4)
    ensures StatusFromName(v).None? && r.Some? ==> StatusValue(r.value) == RubyToI(v)
  {
    if StatusFromName(v).Some? then StatusFromName(v)
    else if NumericStart(v) then StatusFromValue(RubyToI(v))
    else None
  }

  /** The status filter accepts a status by its name and by its number alike. */
  lemma StatusConditionForms(s: Status)
    ensures StatusCondition(StatusName(s)) == Some(s)
    ensures StatusCondition(NatText(StatusValue(s))) == Some(s)
  {
    var t := NatText(StatusValue(s));
    DigitsValueOfNatText(StatusValue(s));
    DigitsToI(t);
    assert StatusFromName(t).None? by {
      assert IsDigit(t[0]);
    }
  }

  /**
   * A value that is not a name but starts with whitespace, a sign and digits
   * selects the status of that signed number, whatever follows the digits:
   * "1abc", " 1", "+1" and "1.9" all ask for notified debts.
   */
  lemma LeadingNumeralSelects(ws: string, g: Sign, w: string, rest: string)
    requires Blank(ws) && w != [] && AllDigits(w)
    requires rest == [] || (!IsDigit(rest[0]) && rest[0] != '_')
    requires StatusFromName(ws + (SignText(g) + (w + rest))).None?
    ensures StatusCondition(ws + (SignText(g) + (w + rest))) == StatusFromValue(Signed(g, DigitsValue(w)))
  {
    ToIReadsLeadingNumeral(ws, g, w, rest);
  }

  predicate Given(v: Option<string>) {
    v.Some? && Present(v.value)
  }

  /** The row meets the status condition `v` asks for (NULL is met by no stored row). */
  predicate StatusMatches(d: Debt, v: string) {
    StatusCondition(v).Some? && d.status == StatusCondition(v)
  }

  /** The two optional conditions of the index, combined with AND. */
  predicate Matches(d: Debt, status: Option<string>, search: Option<string>) {
    (Given(status) ==> StatusMatches(d, status.value))
    && (Given(search) ==> ILike(d.customerEmail, "%" + search.value + "%"))
  }

  /** The rows the index query selects, before ordering and paging. */
  function Matching(ds: seq<Debt>, status: Option<string>, search: Option<string>): (r: seq<Debt>)
    ensures forall d :: d in r <==> d in ds && Matches(d, status, search)
  {
    var byStatus := if Given(status) then Filter(ds, (d: Debt) => StatusMatches(d, status.value)) else ds;
    if Given(search) then SearchByEmail(byStatus, search.value) else byStatus
  }

  /**
   * Kaminari's `page(params[:page])` reads the parameter with `to_i` (nil reads
   * as 0): a plain number is itself, and anything that does not start like a
   * number is 0, which counts as page 1.
   */
  function PageNumber(page: Option<string>): (n: int)
    ensures page.None? ==> n == 0
    ensures page.Some? && !NumericStart(page.value) ==> n == 0
    ensures page.Some? && AllDigits(page.value) && page.value != "" ==> n == DigitsValue(page.value)
  {
    if page.None? then 0
    else
      if page.value != "" && AllDigits(page.value) then
        DigitsToI(page.value);
        RubyToI(page.value)
      else RubyToI(page.value)
  }

  /** " 3", "+3" and "1_0" are pages 3, 3 and 10, as `to_i` reads them. */
  lemma PageNumberReadsLikeToI(ws: string, g: Sign, w: string, rest: string)
    requires Blank(ws) && w != [] && AllDigits(w)
    requires rest == [] || (!IsDigit(rest[0]) && rest[0] != '_')
    ensures PageNumber(Some(ws + (SignText(g) + (w + rest)))) == Signed(g, DigitsValue(w))
  {
    ToIReadsLeadingNumeral(ws, g, w, rest);
  }

  /** `.page(n).per(25)`: OFFSET 25 * (n - 1), page numbers below 1 counting as 1; LIMIT 25. */
  function PageOf(s: seq<Debt>, n: int): (r: seq<Debt>)
    ensures |r| <= PerPage
    ensures var off := PerPage * (if n >= 1 then n - 1 else 0);
      off <= |s| ==> r == s[off .. if off + PerPage <= |s| then off + PerPage else |s|]
    ensures var off := PerPage * (if n >= 1 then n - 1 else 0);
      off > |s| ==> r == []
    ensures forall d :: d in r ==> d in s
    ensures NewestFirst(s) ==> NewestFirst(r)
  {
    var off := PerPage * (if n >= 1 then n - 1 else 0);
    if off > |s| then []
    else
      var r := s[off .. if off + PerPage <= |s| then off + PerPage else |s|];
      assert forall k :: 0 <= k < |r| ==> r[k] == s[off + k];
      r
  }

  /** The debts the index shows. */
  function IndexDebts(ds: seq<Debt>, status: Option<string>, search: Option<string>, page: Option<string>): (r: seq<Debt>)
    ensures |r| <= PerPage
  {
    PageOf(Recent(Matching(ds, status, search)), PageNumber(page))
  }

  /** Every listed debt is stored and meets both conditions, and the page is newest first. */
  lemma IndexShowsMatchesNewestFirst(ds: seq<Debt>, status: Option<string>, search: Option<string>, page: Option<string>)
    ensures NewestFirst(IndexDebts(ds, status, search, page))
    ensures forall d :: d in IndexDebts(ds, status, search, page) ==> d in ds && Matches(d, status, search)
  {
    RecentSameRows(Matching(ds, status, search));
  }

  /** When at most 25 rows match, the first page lists every one of them. */
  lemma FirstPageListsAllMatches(ds: seq<Debt>, status: Option<string>, search: Option<string>, page: Option<string>)
    requires |Matching(ds, status, search)| <= PerPage && PageNumber(page) <= 1
    ensures forall d :: d in IndexDebts(ds, status, search, page) <==> d in ds && Matches(d, status, search)
  {
    var m := Matching(ds, status, search);
    RecentSameRows(m);
    assert IndexDebts(ds, status, search, page) == Recent(m)[0..|Recent(m)|];
    assert Recent(m)[0..|Recent(m)|] == Recent(m);
  }

  /** A status that is neither a name nor, read with `to_i`, a number of the enum lists nothing. */
  lemma UnknownStatusListsNothing(ds: seq<Debt>, status: Option<string>, search: Option<string>, page: Option<string>)
    requires Given(status) && StatusCondition(status.value).None?
    ensures IndexDebts(ds, status, search, page) == []
  {
    var m := Matching(ds, status, search);
    assert forall d :: !StatusMatches(d, status.value);
    assert forall k :: 0 <= k < |m| ==> m[k] in m;
    assert m == [];
  }

  /** For a search free of LIKE's pattern characters, a row matches when its e-mail contains the search, ignoring case. */
  lemma SearchMeansSubstring(d: Debt, status: Option<string>, q: string)
    requires Present(q) && forall i :: 0 <= i < |q| ==> !IsWildcard(q[i])
    ensures Matches(d, status, Some(q)) <==>
      (Given(status) ==> StatusMatches(d, status.value))
      && Contains(Lower(d.customerEmail), Lower(q))
  {
    ILikeIsCaseInsensitiveContains(d.customerEmail, q);
  }

  // -------------------------------------------------------- read-only pages

  function Index(ds: seq<Debt>, user: Option<User>, status: Option<string>, search: Option<string>, page: Option<string>)
    : (r: Web.Response<Debt>)
    ensures AdminBase.AdminFilters(Ctl, Web.IndexAction, user).Proceed? ==>
      r == Web.Rendered(Web.DebtList(IndexDebts(ds, status, search, page)), Web.OK)
  {
    var g := AdminBase.AdminFilters(Ctl, Web.IndexAction, user);
    if g.Halt? then Web.Halted(g) else Web.Rendered(Web.DebtList(IndexDebts(ds, status, search, page)), Web.OK)
  }

  /**
   * `show` and `edit` after `set_debt`: `Debt.find` raises RecordNotFound for
   * an unknown id, which Rails answers with 404.
   */
  function ShowOrEdit(ds: seq<Debt>, user: Option<User>, a: Web.ActionName, id: int): (r: Web.Response<Debt>)
    requires a == Web.ShowAction || a == Web.EditAction
    ensures AdminBase.AdminFilters(Ctl, a, user).Proceed? ==>
      (r == Web.HttpError(Web.NotFound) <==> forall d :: d in ds ==> d.id != id)
    ensures r.Rendered? ==> r.status == Web.OK && (if a == Web.ShowAction then r.view.DebtPage? else r.view.EditForm?)
  {
    var g := AdminBase.AdminFilters(Ctl, a, user);
    if g.Halt? then Web.Halted(g)
    else
      match FindById(ds, id)
      case None => Web.HttpError(Web.NotFound)
      case Some(d) => Web.Rendered(if a == Web.ShowAction then Web.DebtPage(d) else Web.EditForm(d), Web.OK)
  }

  /** `new`: the form for a fresh, pending debt. */
  function New(user: Option<User>): (r: Web.Response<Debt>)
    ensures AdminBase.AdminFilters(Ctl, Web.NewAction, user).Proceed? ==>
      r.Rendered? && r.view.NewForm? && r.view.draft.status == Some(Pending) && r.view.draft.token == ""
  {
    var g := AdminBase.AdminFilters(Ctl, Web.NewAction, user);
    if g.Halt? then Web.Halted(g) else Web.Rendered(Web.NewForm(NewDebt()), Web.OK)
  }

  // ------------------------------------------------------------------ create

  /**
   * `create`: the service's debt leads to its page; RecordInvalid renders the
   * form again with 422; any other error ends the request with 500.
   */
  method Create(db: Database, user: Option<User>, raw: Option<Web.Params>, now: int, draws: seq<string>, mailFails: bool)
    returns (resp: Web.Response<Debt>)
    modifies db
    requires db.Valid()
    ensures db.Valid() && db.users == old(db.users)
    ensures !resp.Redirect? || AdminBase.AdminFilters(Ctl, Web.CreateAction, user).Halt? ==>
      db.debts == old(db.debts) && db.deliveries == old(db.deliveries)
    ensures AdminBase.AdminFilters(Ctl, Web.CreateAction, user).Halt? ==>
      resp == Web.Halted(AdminBase.AdminFilters(Ctl, Web.CreateAction, user))
    ensures AdminBase.AdminFilters(Ctl, Web.CreateAction, user).Proceed? && DebtParams(raw).None? ==>
      resp == Web.HttpError(Web.BadRequest)
    ensures AdminBase.AdminFilters(Ctl, Web.CreateAction, user).Proceed? && resp.Redirect? ==>
      exists d :: db.debts == old(db.debts) + [d]
        && resp == Web.Redirect(Web.AdminDebtPage(d.id), Web.Notice(DebtCreated))
        && d.status == Some(Notified) && d.adminUserId == Some(user.value.id)
        && db.deliveries == old(db.deliveries) + [NotificationFor(d)]
    ensures resp.Rendered? ==> resp.status == Web.UnprocessableEntity && resp.view.NewForm?
    // a form whose amount, due date or e-mail is invalid comes back with 422, whatever its status
    ensures (AdminBase.AdminFilters(Ctl, Web.CreateAction, user).Proceed? && DebtParams(raw).Some?
      && DebtCreationService.Draft(DebtParams(raw).value, user.value).Some?
      && !AttributesValid(DebtCreationService.Draft(DebtParams(raw).value, user.value).value))
      ==> resp.Rendered? && resp.status == Web.UnprocessableEntity
  {
    var g := AdminBase.AdminFilters(Ctl, Web.CreateAction, user);
    if g.Halt? {
      return Web.Halted(g);
    }
    var p := DebtParams(raw);
    if p.None? {
      return Web.HttpError(Web.BadRequest);
    }
    var outcome := DebtCreationService.Call(db, p.value, user.value, now, draws, mailFails);
    match outcome
    case Created(d) =>
      resp := Web.Redirect(Web.AdminDebtPage(d.id), Web.Notice(DebtCreated));
    case RecordInvalid(r) =>
      resp := Web.Rendered(Web.NewForm(r), Web.UnprocessableEntity);
    case Raised =>
      resp := Web.HttpError(Web.InternalServerError);
  }

  // ------------------------------------------------------------------ update

  /** `params[:debt][:send_notification] == "1"`. */
  predicate SendRequested(raw: Option<Web.Params>) {
    raw.Some? && "send_notification" in raw.value && raw.value["send_notification"] == Web.Str("1")
  }

  /** What a request does: its response, the debts table after it, and the mails it sent. */
  datatype Effect = Effect(resp: Web.Response<Debt>, debts: seq<Debt>, mails: seq<Mail>)

  /** The row `save` writes: unchanged when no attribute changed, else the new values stamped `now`. */
  function SavedRow(d: Debt, a: Debt, now: int): (r: Debt)
    ensures r == d || r == a.(updatedAt := now)
  {
    if a == d then d else a.(updatedAt := now)
  }

  /** How far `update` gets before the mail: the step that stops it, or the row it saves. */
  datatype Attempt = NoRow | NoParams | Raises | Invalid(record: Debt) | Saved(row: Debt)

  /** set_debt, debt_params and `@debt.update`. */
  function AttemptUpdate(ds: seq<Debt>, id: int, raw: Option<Web.Params>, now: int): (r: Attempt)
    ensures r == NoRow <==> FindById(ds, id).None?
    ensures r == NoParams <==> FindById(ds, id).Some? && DebtParams(raw).None?
    ensures r.Invalid? ==> !IsValid(r.record, Without(ds, id))
    // validation is decided before the database sees the row: an invalid
    // record renders the form even when its status is blank
    ensures FindById(ds, id).Some? && DebtParams(raw).Some? ==>
      var a := AssignAttributes(FindById(ds, id).value, DebtParams(raw).value);
      (r.Invalid? <==> a.Some? && !IsValid(a.value, Without(ds, id)))
      && (r == Raises <==> a.None? || (IsValid(a.value, Without(ds, id)) && !FitsColumns(a.value)))
    // only the submitted attributes change, each to its submitted value, and the row still passes validation
    ensures r.Saved? ==>
      var d := FindById(ds, id).value;
      raw.Some? && r.row.id == id && r.row.token == d.token
      && r.row.customerUserId == d.customerUserId && r.row.adminUserId == d.adminUserId
      && r.row.createdAt == d.createdAt
      && ("status" !in raw.value ==> r.row.status == d.status)
      && ("status" in raw.value ==> Some(r.row.status) == StatusParam(raw.value["status"]))
      && ("amount" in raw.value ==> r.row.amount == CastAmount(raw.value["amount"]))
      && ("due_date" in raw.value ==> r.row.dueDate == CastDate(raw.value["due_date"]))
      && ("customer_email" in raw.value ==> r.row.customerEmail == CastText(raw.value["customer_email"]))
      && ("description" in raw.value ==> r.row.description == CastText(raw.value["description"]))
      && IsValid(r.row, Without(ds, id)) && FitsColumns(r.row)
      && (r.row == d || r.row.updatedAt == now)
  {
    match FindById(ds, id)
    case None => NoRow
    case Some(d) =>
      match DebtParams(raw)
      case None => NoParams
      case Some(p) =>
        match AssignAttributes(d, p)
        case None => Raises
        case Some(a) =>
          if !IsValid(a, Without(ds, d.id)) then Invalid(a)
          else if !FitsColumns(a) then Raises
          else
            WhitelistProtectsColumns(d, raw.value);
            var n := SavedRow(d, a, now);
            ValidIff(a, Without(ds, d.id));
            ValidIff(n, Without(ds, d.id));
            Saved(n)
  }

  /**
   * `update` on the table `ds`: the admin filters, the attempt, then the
   * optional mail, which is sent after the update has committed.
   */
  function UpdateEffect(ds: seq<Debt>, user: Option<User>, id: int, raw: Option<Web.Params>, now: int, mailFails: bool)
    : (e: Effect)
    ensures e.debts == ds || (AttemptUpdate(ds, id, raw, now).Saved? && e.debts == Replace(ds, AttemptUpdate(ds, id, raw, now).row))
    ensures |e.mails| <= 1
  {
    var g := AdminBase.AdminFilters(Ctl, Web.UpdateAction, user);
    if g.Halt? then Effect(Web.Halted(g), ds, [])
    else
      match AttemptUpdate(ds, id, raw, now)
      case NoRow => Effect(Web.HttpError(Web.NotFound), ds, [])
      case NoParams => Effect(Web.HttpError(Web.BadRequest), ds, [])
      case Raises => Effect(Web.HttpError(Web.InternalServerError), ds, [])
      case Invalid(a) => Effect(Web.Rendered(Web.EditForm(a), Web.UnprocessableEntity), ds, [])
      case Saved(n) =>
        var after := Replace(ds, n);
        if !SendRequested(raw) then Effect(Web.Redirect(Web.AdminDebtPage(id), Web.Notice(DebtUpdated)), after, [])
        else if mailFails then Effect(Web.HttpError(Web.InternalServerError), after, [])
        else Effect(Web.Redirect(Web.AdminDebtPage(id), Web.Notice(DebtUpdated)), after, [NotificationFor(n)])
  }

  /** An update that fails validation (an amount of -100, say) renders the form with 422 and changes nothing. */
  lemma InvalidUpdateChangesNothing(ds: seq<Debt>, user: Option<User>, id: int, raw: Option<Web.Params>, now: int, mailFails: bool)
    requires AdminBase.AdminFilters(Ctl, Web.UpdateAction, user).Proceed?
    requires FindById(ds, id).Some? && DebtParams(raw).Some?
    requires AssignAttributes(FindById(ds, id).value, DebtParams(raw).value).Some?
    requires !IsValid(AssignAttributes(FindById(ds, id).value, DebtParams(raw).value).value, Without(ds, id))
    ensures UpdateEffect(ds, user, id, raw, now, mailFails) ==
      Effect(Web.Rendered(Web.EditForm(AssignAttributes(FindById(ds, id).value, DebtParams(raw).value).value),
                          Web.UnprocessableEntity), ds, [])
  {
  }

  /** A mail goes out exactly when the update was saved, send_notification was "1" and the send went through; it describes the saved row. */
  lemma MailOnlyAfterSavedUpdate(ds: seq<Debt>, user: Option<User>, id: int, raw: Option<Web.Params>, now: int, mailFails: bool)
    ensures var e := UpdateEffect(ds, user, id, raw, now, mailFails);
      |e.mails| <= 1
      && (e.mails != [] <==>
            id >= 0 && e.resp == Web.Redirect(Web.AdminDebtPage(id), Web.Notice(DebtUpdated)) && SendRequested(raw) && !mailFails)
    ensures var e := UpdateEffect(ds, user, id, raw, now, mailFails);
      e.mails != [] ==> e.mails[0] == NotificationFor(FindById(e.debts, id).value)
  {
    var e := UpdateEffect(ds, user, id, raw, now, mailFails);
    var t := AttemptUpdate(ds, id, raw, now);
    if t.Saved? {
      FindAfterWrite(ds, FindById(ds, id).value, t.row);
    }
  }

  /** After writing row n over row d, looking up their id finds n. */
  lemma {:induction false} FindAfterWrite(ds: seq<Debt>, d: Debt, n: Debt)
    requires FindById(ds, d.id) == Some(d) && n.id == d.id
    ensures FindById(Replace(ds, n), d.id) == Some(n)
  {
    if ds[0].id != d.id {
      assert Replace(ds, n)[1..] == Replace(ds[1..], n);
      FindAfterWrite(ds[1..], d, n);
    }
  }

  /** A saved update keeps the token, the user links and the creation time: only submitted attributes change. */
  lemma UpdateKeepsIdentity(ds: seq<Debt>, user: Option<User>, id: int, raw: Option<Web.Params>, now: int, mailFails: bool)
    requires FindById(ds, id).Some?
    ensures FindById(UpdateEffect(ds, user, id, raw, now, mailFails).debts, id).Some?
    ensures var d := FindById(ds, id).value;
      var n := FindById(UpdateEffect(ds, user, id, raw, now, mailFails).debts, id).value;
      n.id == id && n.token == d.token && n.customerUserId == d.customerUserId && n.adminUserId == d.adminUserId
      && n.createdAt == d.createdAt && (raw.None? || "status" !in raw.value ==> n.status == d.status)
  {
    var d := FindById(ds, id).value;
    var e := UpdateEffect(ds, user, id, raw, now, mailFails);
    var t := AttemptUpdate(ds, id, raw, now);
    if e.debts != ds {
      FindAfterWrite(ds, d, t.row);
    }
  }

  /** Every update leaves a table that satisfies the store invariant. */
  lemma UpdateKeepsInvariant(ds: seq<Debt>, us: seq<User>, user: Option<User>, id: int, raw: Option<Web.Params>, now: int, mailFails: bool)
    requires StoreInvariant(ds, us)
    ensures StoreInvariant(UpdateEffect(ds, user, id, raw, now, mailFails).debts, us)
  {
    var t := AttemptUpdate(ds, id, raw, now);
    if UpdateEffect(ds, user, id, raw, now, mailFails).debts != ds {
      var d := FindById(ds, id).value;
      assert RowOk(d, us);
      ReplaceKeepsInvariant(ds, us, t.row);
    }
  }

  /** `update` against the database: exactly what `UpdateEffect` describes. */
  method Update(db: Database, user: Option<User>, id: int, raw: Option<Web.Params>, now: int, mailFails: bool)
    returns (resp: Web.Response<Debt>)
    modifies db
    requires db.Valid()
    ensures db.Valid() && db.users == old(db.users) && db.nextDebtId == old(db.nextDebtId)
    ensures var e := UpdateEffect(old(db.debts), user, id, raw, now, mailFails);
      resp == e.resp && db.debts == e.debts && db.deliveries == old(db.deliveries) + e.mails
  {
    var g := AdminBase.AdminFilters(Ctl, Web.UpdateAction, user);
    if g.Halt? {
      return Web.Halted(g);
    }
    var t := AttemptUpdate(db.debts, id, raw, now);
    match t
    case NoRow =>
      return Web.HttpError(Web.NotFound);
    case NoParams =>
      return Web.HttpError(Web.BadRequest);
    case Raises =>
      return Web.HttpError(Web.InternalServerError);
    case Invalid(a) =>
      return Web.Rendered(Web.EditForm(a), Web.UnprocessableEntity);
    case Saved(n) =>
      assert RowOk(FindById(db.debts, id).value, db.users);
      db.Write(n);
      if SendRequested(raw) {
        if mailFails {
          // deliver_now raised after the update committed
          return Web.HttpError(Web.InternalServerError);
        }
        db.Deliver(NotificationFor(n));
      }
      return Web.Redirect(Web.AdminDebtPage(id), Web.Notice(DebtUpdated));
  }

  // ----------------------------------------------------------------- destroy

  /** `destroy`: set_debt, then `destroy!` and back to the list. */
  function DestroyEffect(ds: seq<Debt>, user: Option<User>, id: int): (e: Effect)
    ensures e.mails == []
  {
    var g := AdminBase.AdminFilters(Ctl, Web.DestroyAction, user);
    if g.Halt? then Effect(Web.Halted(g), ds, [])
    else if FindById(ds, id).None? then Effect(Web.HttpError(Web.NotFound), ds, [])
    else Effect(Web.Redirect(Web.AdminDebtsIndex, Web.Notice(DebtDeleted)), Without(ds, id), [])
  }

  /** An admin's destroy of a stored debt removes exactly that debt: the count drops by one. */
  lemma DestroyRemovesExactlyTarget(ds: seq<Debt>, u: User, d: Debt)
    requires IsAdmin(u) && DistinctIds(ds) && d in ds
    ensures multiset(DestroyEffect(ds, Some(u), d.id).debts) == multiset(ds) - multiset{d}
    ensures |DestroyEffect(ds, Some(u), d.id).debts| == |ds| - 1
  {
    WithoutRemovesOne(ds, d);
  }

  /** An unknown id answers 404 and deletes nothing. */
  lemma DestroyUnknownChangesNothing(ds: seq<Debt>, u: User, id: int)
    requires IsAdmin(u) && forall d :: d in ds ==> d.id != id
    ensures DestroyEffect(ds, Some(u), id) == Effect(Web.HttpError(Web.NotFound), ds, [])
  {
  }

  method Destroy(db: Database, user: Option<User>, id: int) returns (resp: Web.Response<Debt>)
    modifies db
    requires db.Valid()
    ensures db.Valid() && db.users == old(db.users) && db.nextDebtId == old(db.nextDebtId)
    ensures var e := DestroyEffect(old(db.debts), user, id);
      resp == e.resp && db.debts == e.debts && db.deliveries == old(db.deliveries)
  {
    var g := AdminBase.AdminFilters(Ctl, Web.DestroyAction, user);
    if g.Halt? {
      return Web.Halted(g);
    }
    if FindById(db.debts, id).None? {
      return Web.HttpError(Web.NotFound);
    }
    db.Delete(id);
    return Web.Redirect(Web.AdminDebtsIndex, Web.Notice(DebtDeleted));
  }
}
