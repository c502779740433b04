/**
 * The permission table of app/models/ability.rb, as data, and the decision
 * CanCanCan takes from it: among the rules relevant to the action and the
 * subject, the one defined last whose conditions match decides; with none, the
 * answer is no. The default aliases apply (read covers index and show, create
 * covers new, update covers edit) and manage covers every action.
 */
module Ability {

  import opened Basics
  import opened Users

  datatype Action =
    | Index | Show | New | Create | Edit | Update | Destroy
    | Read | SendManualEmail | Access | Modify | Enumerate

  /** The action a rule names: `:manage`, or one action (which may be an alias). */
  datatype RuleAction = Manage | Act(a: Action)

  /** What a query asks about: a debt or a user (a record or the class), or a symbol. */
  datatype Subject =
    | DebtRecord(customerUserId: Option<int>)
    | DebtClass
    | UserRecord(id: nat)
    | UserClass
    | Sym(name: Symbol)

  /** The symbols the table names as subjects (`:admin_dashboard`, ...). */
  datatype Symbol =
    | AdminDashboard | CustomerRegistration | SystemConfiguration | AdminFunctions | DebtListEndpoints
    | Homepage | PublicDebts | RegistrationPage | DebtTokens | DetailedDebtInformation

  /** What a rule names as its subject. */
  datatype Target = DebtModel | UserModel | SymTarget(name: Symbol)

  /** The hash conditions the table uses. */
  datatype Condition =
    | NoCondition
    | CustomerIs(id: nat)          // customer_user_id: id
    | CustomerIsNot(id: nat)       // customer_user_id: { not: id }
    | IdIs(id: nat)                // id: id

  datatype Rule = Rule(allow: bool, action: RuleAction, target: Target, cond: Condition)

  function Can(a: RuleAction, t: Target, c: Condition): Rule { Rule(true, a, t, c) }
  function Cannot(a: RuleAction, t: Target, c: Condition): Rule { Rule(false, a, t, c) }

  /** The rules of the first branch, for an admin. */
  const AdminTable: seq<Rule> :=
      [ Can(Manage, DebtModel, NoCondition),
        Can(Act(Read), SymTarget(AdminDashboard), NoCondition),
        Can(Act(SendManualEmail), DebtModel, NoCondition),
        Cannot(Act(Access), SymTarget(CustomerRegistration), NoCondition),
        Cannot(Act(Modify), SymTarget(SystemConfiguration), NoCondition) ]

  /** The rules of the last branch, for a visitor or a user without a role. */
  const GuestTable: seq<Rule> :=
      [ Can(Act(Read), SymTarget(Homepage), NoCondition),
        Can(Act(Show), SymTarget(PublicDebts), NoCondition),
        Can(Act(Access), SymTarget(RegistrationPage), NoCondition),
        Cannot(Act(Enumerate), SymTarget(DebtTokens), NoCondition),
        Cannot(Act(Access), SymTarget(DetailedDebtInformation), NoCondition),
        Cannot(Act(Read), DebtModel, NoCondition) ]

  /** `initialize(user)`: the rules defined for the user, in definition order. */
  function Rules(user: Option<User>): (rs: seq<Rule>)
    ensures user.Some? && IsAdmin(user.value) ==> |rs| == 5 && rs[0] == Can(Manage, DebtModel, NoCondition)
    ensures user.Some? && IsCustomer(user.value) ==> |rs| == 7 && rs[0] == Can(Act(Read), DebtModel, CustomerIs(user.value.id))
    ensures (user.None? || user.value.role.None?) ==> |rs| == 6 && rs[5] == Cannot(Act(Read), DebtModel, NoCondition)
  {
    // `user ||= User.new`: the placeholder has no role
    var u := if user.Some? then user.value else User(0, "", None, None, "");
    if IsAdmin(u) then AdminTable
    else if IsCustomer(u) then CustomerTable(u.id)
    else GuestTable
  }

  /** The customer branch: the rules of the customer with this id. */
  function CustomerTable(id: nat): seq<Rule> {
    [ Can(Act(Read), DebtModel, CustomerIs(id)),
      Can(Act(Update), UserModel, IdIs(id)),
      Cannot(Act(Read), DebtModel, CustomerIsNot(id)),
      Cannot(Act(Access), SymTarget(AdminFunctions), NoCondition),
      Cannot(Act(Create), DebtModel, NoCondition),
      Cannot(Act(Modify), DebtModel, NoCondition),
      Cannot(Act(Access), SymTarget(DebtListEndpoints), NoCondition) ]
  }

  /** The rule's action covers the queried one, through manage or an alias. */
  predicate CoversAction(ra: RuleAction, a: Action) {
    match ra
    case Manage => true
    case Act(x) =>
      x == a
      || (x == Read && (a == Index || a == Show))
      || (x == Create && a == New)
      || (x == Update && a == Edit)
  }

  predicate CoversSubject(t: Target, s: Subject) {
    match t
    case DebtModel => s.DebtRecord? || s.DebtClass?
    case UserModel => s.UserRecord? || s.UserClass?
    case SymTarget(n) => s == Sym(n)
  }

  /**
   * Whether the rule's conditions match. On a record they are compared with its
   * attributes (a nil customer_user_id matches neither form); on a class a
   * conditional rule counts only when it grants, and an unconditional one always.
   */
  predicate ConditionHolds(r: Rule, s: Subject) {
    match r.cond
    case NoCondition => true
    case CustomerIs(id) =>
      if s.DebtRecord? then s.customerUserId == Some(id) else r.allow
    case CustomerIsNot(id) =>
      if s.DebtRecord? then s.customerUserId.Some? && s.customerUserId.value != id else r.allow
    case IdIs(id) =>
      if s.UserRecord? then s.id == id else r.allow
  }

  predicate Decides(r: Rule, a: Action, s: Subject) {
    CoversAction(r.action, a) && CoversSubject(r.target, s) && ConditionHolds(r, s)
  }

  /** The allow flag of the last rule among the first n of `rs` that decides the query; false when none does. */
  function LastDecision(rs: seq<Rule>, n: nat, a: Action, s: Subject): (b: bool)
    requires n <= |rs|
    ensures b ==> exists k :: 0 <= k < n && Decides(rs[k], a, s) && rs[k].allow
    ensures (forall k :: 0 <= k < n ==> !Decides(rs[k], a, s)) ==> !b
  {
    if n == 0 then false
    else if Decides(rs[n - 1], a, s) then rs[n - 1].allow
    else LastDecision(rs, n - 1, a, s)
  }

  /** The rule at k decides when no later rule does. */
  lemma {:induction false} LastDeciderWins(rs: seq<Rule>, n: nat, a: Action, s: Subject, k: nat)
    requires k < n <= |rs| && Decides(rs[k], a, s)
    requires forall j :: k < j < n ==> !Decides(rs[j], a, s)
    ensures LastDecision(rs, n, a, s) == rs[k].allow
    decreases n
  {
    if n - 1 != k {
      LastDeciderWins(rs, n - 1, a, s, k);
    }
  }

  /** `can?(action, subject)` for the ability built from `user`. */
  predicate Permits(user: Option<User>, a: Action, s: Subject) {
    var rs := Rules(user);
    LastDecision(rs, |rs|, a, s)
  }

  // ------------------------------------------------------------- properties

  /** An admin may do anything to any debt, including send_manual_email. */
  lemma AdminManagesDebts(u: User, a: Action, c: Option<nat>)
    requires IsAdmin(u)
    ensures Permits(Some(u), a, DebtRecord(c)) && Permits(Some(u), a, DebtClass)
  {
    assert Rules(Some(u)) == AdminTable;
    AdminTableGrantsDebts(a, DebtRecord(c));
    AdminTableGrantsDebts(a, DebtClass);
  }

  /** In the admin table, the manage rule (or, for sending mail, the rule after it) decides every debt query. */
  lemma AdminTableGrantsDebts(a: Action, s: Subject)
    requires s.DebtRecord? || s.DebtClass?
    ensures LastDecision(AdminTable, 5, a, s)
  {
    var rs := AdminTable;
    assert !Decides(rs[1], a, s) && !Decides(rs[3], a, s) && !Decides(rs[4], a, s);
    if a == SendManualEmail {
      LastDeciderWins(rs, 5, a, s, 2);
    } else {
      assert !Decides(rs[2], a, s);
      LastDeciderWins(rs, 5, a, s, 0);
    }
  }

  /** A customer may read (index, show) a debt exactly when it is linked to them. */
  lemma CustomerReadsOnlyOwn(u: User, a: Action, c: Option<nat>)
    requires IsCustomer(u) && (a == Read || a == Index || a == Show)
    ensures Permits(Some(u), a, DebtRecord(c)) <==> c == Some(u.id)
  {
    var rs := Rules(Some(u));
    var s := DebtRecord(c);
    if c == Some(u.id) {
      LastDeciderWins(rs, 7, a, s, 0);
    } else if c.Some? {
      LastDeciderWins(rs, 7, a, s, 2);
    }
  }

  /**
   * The class-level query passes for a customer: the conditional `can :read`
   * grants, and the conditional `cannot :read` is skipped on a class.
   */
  lemma CustomerClassLevelRead(u: User, a: Action)
    requires IsCustomer(u) && (a == Read || a == Index || a == Show)
    ensures Permits(Some(u), a, DebtClass)
  {
    LastDeciderWins(Rules(Some(u)), 7, a, DebtClass, 0);
  }

  /** A customer may never create, change or delete a debt. */
  lemma CustomerNeverWritesDebts(u: User, a: Action, s: Subject)
    requires IsCustomer(u)
    requires a == Create || a == New || a == Update || a == Edit || a == Destroy || a == Modify || a == SendManualEmail
    requires s.DebtRecord? || s.DebtClass?
    ensures !Permits(Some(u), a, s)
  {
    var rs := Rules(Some(u));
    if a == Create || a == New {
      LastDeciderWins(rs, 7, a, s, 4);
    } else if a == Modify {
      LastDeciderWins(rs, 7, a, s, 5);
    }
  }

  /** A customer may update exactly their own user record. */
  lemma CustomerUpdatesOnlySelf(u: User, a: Action, id: nat)
    requires IsCustomer(u) && (a == Update || a == Edit)
    ensures Permits(Some(u), a, UserRecord(id)) <==> id == u.id
  {
    if id == u.id {
      LastDeciderWins(Rules(Some(u)), 7, a, UserRecord(id), 1);
    }
  }

  /** Someone with no role (nobody signed in, or a user without a role) may read no debt. */
  lemma GuestReadsNoDebt(user: Option<User>, a: Action, s: Subject)
    requires user.None? || user.value.role.None?
    requires (a == Read || a == Index || a == Show) && (s.DebtRecord? || s.DebtClass?)
    ensures !Permits(user, a, s)
  {
    LastDeciderWins(Rules(user), 6, a, s, 5);
  }

  /**
   * Someone with no role may see the public debt page, read the homepage and
   * reach the registration page, but may not enumerate debt tokens.
   */
  lemma GuestPublicPages(user: Option<User>)
    requires user.None? || user.value.role.None?
    ensures Permits(user, Show, Sym(PublicDebts))
    ensures Permits(user, Read, Sym(Homepage)) && Permits(user, Show, Sym(Homepage))
    ensures Permits(user, Access, Sym(RegistrationPage))
    ensures !Permits(user, Enumerate, Sym(DebtTokens))
  {
    assert Rules(user) == GuestTable;
    GuestTableDecisions();
  }

  /** The decisions of the guest table on the public pages. */
  lemma GuestTableDecisions()
    ensures LastDecision(GuestTable, 6, Show, Sym(PublicDebts))
    ensures LastDecision(GuestTable, 6, Read, Sym(Homepage)) && LastDecision(GuestTable, 6, Show, Sym(Homepage))
    ensures LastDecision(GuestTable, 6, Access, Sym(RegistrationPage))
    ensures !LastDecision(GuestTable, 6, Enumerate, Sym(DebtTokens))
  {
  }

  /** The admin rules are used exactly for admins, the customer rules exactly for customers. */
  lemma OneBranchPerUser(u: User)
    requires RoleValid(u)
    ensures IsAdmin(u) <==> Rules(Some(u))[0].action == Manage
    ensures IsCustomer(u) <==> Rules(Some(u))[0].cond.CustomerIs?
    ensures Rules(Some(u)) == AdminTable <==> IsAdmin(u)
    ensures Rules(Some(u)) == CustomerTable(u.id) <==> IsCustomer(u)
    ensures Rules(Some(u)) == GuestTable <==> u.role.None?
  {
    ExactlyOneRole(u);
  }
}
