/**
 * The Debt record (app/models/debt.rb and the debts table): its status enum,
 * its validations, the secure-token callback, `overdue?` and the list scopes.
 *
 * Money is held in cents (the column is numeric(10,2)); dates are day numbers
 * and timestamps are ticks, both supplied by the caller.
 */
module Debts {

  import opened Basics
  import opened EmailFormat
  import opened SqlLike
  import Web

  // ------------------------------------------------------------------ status

  datatype Status = Pending | Notified | Viewed | Registered | Resolved

  /** The integer stored in the status column. */
  function StatusValue(s: Status): (n: nat)
    ensures n <= 4
    ensures StatusFromValue(n) == Some(s)
  {
    match s
    case Pending => 0
    case Notified => 1
    case Viewed => 2
    case Registered => 3
    case Resolved => 4
  }

  function StatusFromValue(n: int): (r: Option<Status>)
    ensures r.Some? <==> 0 <= n <= 4
  {
    if n == 0 then Some(Pending)
    else if n == 1 then Some(Notified)
    else if n == 2 then Some(Viewed)
    else if n == 3 then Some(Registered)
    else if n == 4 then Some(Resolved)
    else None
  }

  function StatusName(s: Status): (name: string)
    ensures StatusFromName(name) == Some(s)
    ensures name != [] && !IsSpace(name[0]) && !Blank(name)
  {
    match s
    case Pending => "pending"
    case Notified => "notified"
    case Viewed => "viewed"
    case Registered => "registered"
    case Resolved => "resolved"
  }

  function StatusFromName(name: string): Option<Status> {
    if name == "pending" then Some(Pending)
    else if name == "notified" then Some(Notified)
    else if name == "viewed" then Some(Viewed)
    else if name == "registered" then Some(Registered)
    else if name == "resolved" then Some(Resolved)
    else None
  }

  /**
   * Assigning a status parameter, as the enum's `assert_valid_value` and `cast`
   * do: a blank value (nil or whitespace) assigns nil, Some(None); an enum name
   * or its integer assigns that status; anything else raises ArgumentError, None.
   */
  function StatusParam(v: Web.Value): (r: Option<Option<Status>>)
    ensures r == Some(None) <==> v.Null? || (v.Str? && Blank(v.s))
    ensures r.Some? && r.value.Some? ==>
      v == Web.Str(StatusName(r.value.value)) || v == Web.Int(StatusValue(r.value.value))
    ensures forall s :: v == Web.Str(StatusName(s)) || v == Web.Int(StatusValue(s)) ==> r == Some(Some(s))
  {
    match v
    case Str(name) =>
      if Blank(name) then Some(None)
      else if StatusFromName(name).Some? then Some(StatusFromName(name))
      else None
    case Int(n) => if StatusFromValue(n).Some? then Some(StatusFromValue(n)) else None
    case Null => Some(None)
  }

  // -------------------------------------------------------------------- record

  datatype Debt = Debt(
    id: nat,
    amount: Option<int>,       // cents; nil until assigned
    dueDate: Option<int>,      // day number; nil until assigned
    customerEmail: string,
    description: string,       // rich text, opaque here
    token: string,
    status: Option<Status>,    // nil only in memory: the column is NOT NULL
    customerUserId: Option<int>,  // a foreign key, checked only when the row is written
    adminUserId: Option<int>,
    createdAt: int,
    updatedAt: int,
    notifiedAt: Option<int>,
    viewedAt: Option<int>)

  /** `Debt.new`: every column at its default; status defaults to pending. */
  function NewDebt(): (d: Debt)
    ensures d.status == Some(Pending) && d.token == "" && d.customerUserId.None? && d.adminUserId.None?
  {
    Debt(0, None, None, "", "", "", Some(Pending), None, None, 0, 0, None, None)
  }

  /** amount is numeric(10,2): at most 99,999,999.99, i.e. below 10^10 cents. */
  const AmountColumnLimit: int := 10_000_000_000

  /**
   * The column constraints the validations do not check, which the database
   * enforces when the row is written: amount fits numeric(10,2), and status,
   * NOT NULL, is set.
   */
  predicate FitsColumns(d: Debt) {
    (d.amount.Some? ==> -AmountColumnLimit < d.amount.value < AmountColumnLimit)
    && d.status.Some?
  }

  // ----------------------------------------------------------- mass assignment

  /** The attributes a parameter hash may name when assigned to a debt. */
  const AssignableAttributes: set<string> :=
    {"amount", "due_date", "customer_email", "description", "status", "token", "customer_user_id", "admin_user_id"}

  /** The amount column receives cents; anything but a number leaves it nil. */
  function CastAmount(v: Web.Value): Option<int> {
    if v.Int? then Some(v.i) else None
  }

  /** The due_date column receives a day number; anything else casts to nil. */
  function CastDate(v: Web.Value): Option<int> {
    if v.Int? then Some(v.i) else None
  }

  /** A string column: nil becomes the blank string, a number its decimal text. */
  function CastText(v: Web.Value): string {
    match v
    case Str(s) => s
    case Int(n) => IntText(n)
    case Null => ""
  }

  /**
   * A user reference, cast as an integer column casts: nil and a blank string
   * give nil, a number is kept as it is (negative too), and any other string
   * is read with `to_i`. Nothing is refused here: a reference to no user is
   * refused by the foreign key when the row is written.
   */
  function CastLink(v: Web.Value): (r: Option<int>)
    ensures r.None? <==> v.Null? || (v.Str? && Blank(v.s))
    ensures v.Int? ==> r == Some(v.i)
    ensures v.Str? && !Blank(v.s) ==> r == Some(RubyToI(v.s))
  {
    match v
    case Null => None
    case Int(n) => Some(n)
    case Str(s) => if Blank(s) then None else Some(RubyToI(s))
  }

  /**
   * `assign_attributes(p)`: each attribute named in p takes the cast value.
   * None when p names an attribute the model does not have or a status that
   * is not one of the enum's (Rails raises).
   */
  function AssignAttributes(d: Debt, p: Web.Params): (r: Option<Debt>)
    ensures r.None? <==>
      !(p.Keys <= AssignableAttributes)
      || ("status" in p && StatusParam(p["status"]).None?)
    ensures r.Some? ==>
      r.value.id == d.id && r.value.createdAt == d.createdAt && r.value.updatedAt == d.updatedAt
      && r.value.notifiedAt == d.notifiedAt && r.value.viewedAt == d.viewedAt
    // every named attribute takes the submitted value, cast to its column
    ensures r.Some? && "amount" in p ==> r.value.amount == CastAmount(p["amount"])
    ensures r.Some? && "due_date" in p ==> r.value.dueDate == CastDate(p["due_date"])
    ensures r.Some? && "customer_email" in p ==> r.value.customerEmail == CastText(p["customer_email"])
    ensures r.Some? && "description" in p ==> r.value.description == CastText(p["description"])
    ensures r.Some? && "token" in p ==> r.value.token == CastText(p["token"])
    ensures r.Some? && "status" in p ==> Some(r.value.status) == StatusParam(p["status"])
    ensures r.Some? && "customer_user_id" in p ==> r.value.customerUserId == CastLink(p["customer_user_id"])
    ensures r.Some? && "admin_user_id" in p ==> r.value.adminUserId == CastLink(p["admin_user_id"])
    ensures r.Some? && "status" in p && r.value.status.Some? ==>
      p["status"] == Web.Str(StatusName(r.value.status.value)) || p["status"] == Web.Int(StatusValue(r.value.status.value))
  {
    if !(p.Keys <= AssignableAttributes) then None
    else
      var status := if "status" in p then StatusParam(p["status"]) else Some(d.status);
      if status.None? then None
      else
        Some(d.(
          amount := Named(p, "amount", CastAmount, d.amount),
          dueDate := Named(p, "due_date", CastDate, d.dueDate),
          customerEmail := Named(p, "customer_email", CastText, d.customerEmail),
          description := Named(p, "description", CastText, d.description),
          status := status.value,
          token := Named(p, "token", CastText, d.token),
          customerUserId := Named(p, "customer_user_id", CastLink, d.customerUserId),
          adminUserId := Named(p, "admin_user_id", CastLink, d.adminUserId)))
  }

  /** The value p gives attribute `key`, cast to its column, or `current` when p does not name it. */
  function Named<T>(p: Web.Params, key: string, cast: Web.Value -> T, current: T): (r: T)
    ensures key in p ==> r == cast(p[key])
    ensures key !in p ==> r == current
  {
    if key in p then cast(p[key]) else current
  }

  /** Assigning nothing changes nothing. */
  lemma AssignNothing(d: Debt)
    ensures AssignAttributes(d, map[]) == Some(d)
  {
  }

  /** Assigning the same hash a second time changes nothing more. */
  lemma AssignIdempotent(d: Debt, p: Web.Params)
    requires AssignAttributes(d, p).Some?
    ensures AssignAttributes(AssignAttributes(d, p).value, p) == AssignAttributes(d, p)
  {
  }

  /** Attributes the hash does not name keep their values. */
  lemma AssignKeepsUnnamed(d: Debt, p: Web.Params)
    requires AssignAttributes(d, p).Some?
    ensures "token" !in p ==> AssignAttributes(d, p).value.token == d.token
    ensures "customer_user_id" !in p ==> AssignAttributes(d, p).value.customerUserId == d.customerUserId
    ensures "admin_user_id" !in p ==> AssignAttributes(d, p).value.adminUserId == d.adminUserId
    ensures "status" !in p ==> AssignAttributes(d, p).value.status == d.status
    ensures "amount" !in p ==> AssignAttributes(d, p).value.amount == d.amount
    ensures "due_date" !in p ==> AssignAttributes(d, p).value.dueDate == d.dueDate
    ensures "customer_email" !in p ==> AssignAttributes(d, p).value.customerEmail == d.customerEmail
    ensures "description" !in p ==> AssignAttributes(d, p).value.description == d.description
  {
  }

  // ---------------------------------------------------------------- validation

  datatype DebtError =
    | AmountBlank | AmountNotANumber | AmountNotPositive
    | DueDateBlank
    | EmailBlank | EmailInvalid
    | TokenBlank | TokenTaken

  /** Some row among `others` already holds token t. */
  predicate TokenHeld(t: string, others: seq<Debt>) {
    exists o :: o in others && o.token == t
  }

  /**
   * The errors `valid?` collects. `others` are the stored rows other than this
   * record (the uniqueness query excludes the record's own row).
   */
  function Errors(d: Debt, others: seq<Debt>): set<DebtError> {
    (if d.amount.None? then {AmountBlank, AmountNotANumber}
     else if d.amount.value <= 0 then {AmountNotPositive} else {})
    + (if d.dueDate.None? then {DueDateBlank} else {})
    + (if Blank(d.customerEmail) then {EmailBlank} else {})
    + (if !IsEmail(d.customerEmail) then {EmailInvalid} else {})
    + (if Blank(d.token) then {TokenBlank} else {})
    + (if TokenHeld(d.token, others) then {TokenTaken} else {})
  }

  predicate IsValid(d: Debt, others: seq<Debt>) {
    Errors(d, others) == {}
  }

  /** The rules on the attributes an admin submits: amount, due_date, customer_email. */
  predicate AttributesValid(d: Debt) {
    d.amount.Some? && d.amount.value > 0 && d.dueDate.Some? && IsEmail(d.customerEmail)
  }

  /** The field rules of the record alone, without the uniqueness query. */
  predicate FieldRulesHold(d: Debt) {
    AttributesValid(d) && Present(d.token)
  }

  /** A record is valid exactly when every field rule holds and no other row holds its token. */
  lemma ValidIff(d: Debt, others: seq<Debt>)
    ensures IsValid(d, others) <==> FieldRulesHold(d) && !TokenHeld(d.token, others)
  {
    if IsValid(d, others) {
      assert AmountBlank !in Errors(d, others);
      assert AmountNotPositive !in Errors(d, others);
      assert DueDateBlank !in Errors(d, others);
      assert EmailInvalid !in Errors(d, others);
      assert TokenBlank !in Errors(d, others);
      assert TokenTaken !in Errors(d, others);
    }
    if FieldRulesHold(d) {
      EmailIsPresent(d.customerEmail);
    }
  }

  /** Amounts of zero or below are always rejected, whatever the other fields hold. */
  lemma NonPositiveAmountRejected(d: Debt, others: seq<Debt>)
    requires d.amount.Some? && d.amount.value <= 0
    ensures AmountNotPositive in Errors(d, others) && !IsValid(d, others)
  {
  }

  /** With every other field valid, any positive amount is accepted. */
  lemma PositiveAmountAccepted(d: Debt, others: seq<Debt>, cents: int)
    requires IsValid(d, others) && cents > 0
    ensures IsValid(d.(amount := Some(cents)), others)
  {
    ValidIff(d, others);
    ValidIff(d.(amount := Some(cents)), others);
  }

  /** A malformed customer_email makes the record invalid. */
  lemma MalformedEmailRejected(d: Debt, others: seq<Debt>)
    requires !IsEmail(d.customerEmail)
    ensures EmailInvalid in Errors(d, others) && !IsValid(d, others)
  {
  }

  // --------------------------------------------------------------------- token

  /** `token_unique?`: the token is present and no stored row holds it. */
  predicate TokenUnique(t: string, stored: seq<Debt>) {
    Present(t) && !TokenHeld(t, stored)
  }

  /**
   * `generate_secure_token`: keep drawing `SecureRandom.urlsafe_base64(32)`
   * until the token is unique. The random source is the finite stream `draws`;
   * should every draw collide, the last one is kept and validation rejects it.
   */
  method GenerateSecureToken(token: string, stored: seq<Debt>, draws: seq<string>) returns (t: string)
    ensures TokenUnique(token, stored) ==> t == token
    ensures t == token || t in draws
    ensures (exists k :: 0 <= k < |draws| && TokenUnique(draws[k], stored)) ==> TokenUnique(t, stored)
    ensures !TokenUnique(token, stored) && TokenUnique(t, stored) ==>
      exists k :: 0 <= k < |draws| && draws[k] == t && forall j :: 0 <= j < k ==> !TokenUnique(draws[j], stored)
  {
    t := token;
    var i := 0;
    while !TokenUnique(t, stored) && i < |draws|
      invariant 0 <= i <= |draws|
      invariant t == token || t in draws
      invariant TokenUnique(token, stored) ==> t == token && i == 0
      invariant forall j :: 0 <= j < i - 1 ==> !TokenUnique(draws[j], stored)
      invariant i > 0 ==> t == draws[i - 1]
      invariant i == 0 ==> t == token
      invariant !TokenUnique(t, stored) ==> forall j :: 0 <= j < i ==> !TokenUnique(draws[j], stored)
    {
      t := draws[i];
      i := i + 1;
    }
    if !TokenUnique(token, stored) && TokenUnique(t, stored) {
      assert i > 0 && draws[i - 1] == t;
    }
  }

  /** `token_unique?` on the cases spec/models/debt_spec.rb checks: blank, stored, fresh. */
  lemma TokenUniqueCases(t: string, stored: seq<Debt>)
    ensures Blank(t) ==> !TokenUnique(t, stored)
    ensures (exists o :: o in stored && o.token == t) ==> !TokenUnique(t, stored)
    ensures Present(t) && (forall o :: o in stored ==> o.token != t) ==> TokenUnique(t, stored)
  {
  }

  // ------------------------------------------------------------------- overdue

  /**
   * The `overdue` scope's condition, and `overdue?`: the due date lies before
   * today. With no due date the SQL comparison is NULL and the row is left
   * out; `overdue?` itself would raise NoMethodError on nil, which no stored
   * row reaches because the due date is validated present.
   */
  predicate IsOverdue(d: Debt, today: int) {
    d.dueDate.Some? && d.dueDate.value < today
  }

  /** A debt due today is not overdue; one due yesterday is. */
  lemma OverdueBoundary(d: Debt, today: int)
    requires d.dueDate.Some?
    ensures d.dueDate.value == today ==> !IsOverdue(d, today)
    ensures d.dueDate.value == today - 1 ==> IsOverdue(d, today)
    ensures d.dueDate.value > today ==> !IsOverdue(d, today)
  {
  }

  // -------------------------------------------------------------------- scopes

  /** `overdue`: due_date < today. */
  function OverdueScope(ds: seq<Debt>, today: int): (r: seq<Debt>)
    ensures forall d :: d in r <==> d in ds && IsOverdue(d, today)
  {
    Filter(ds, (d: Debt) => IsOverdue(d, today))
  }

  /** The enum scopes (`Debt.pending`, ...) and `where(status: s)`. */
  function WithStatus(ds: seq<Debt>, s: Status): (r: seq<Debt>)
    ensures forall d :: d in r <==> d in ds && d.status == Some(s)
  {
    Filter(ds, (d: Debt) => d.status == Some(s))
  }

  /** `for_customer(email)`: exact match on customer_email. */
  function ForCustomer(ds: seq<Debt>, email: string): (r: seq<Debt>)
    ensures forall d :: d in r <==> d in ds && d.customerEmail == email
  {
    Filter(ds, (d: Debt) => d.customerEmail == email)
  }

  /** `search_by_email(q)`: customer_email ILIKE '%q%', the query left unescaped. */
  function SearchByEmail(ds: seq<Debt>, q: string): (r: seq<Debt>)
    ensures forall d :: d in r <==> d in ds && ILike(d.customerEmail, "%" + q + "%")
  {
    Filter(ds, (d: Debt) => ILike(d.customerEmail, "%" + q + "%"))
  }

  /**
   * For a query free of LIKE's pattern characters, search_by_email keeps exactly
   * the debts whose e-mail contains the query, ignoring case.
   */
  lemma SearchIsCaseInsensitiveSubstring(ds: seq<Debt>, q: string)
    requires forall i :: 0 <= i < |q| ==> !IsWildcard(q[i])
    ensures forall d :: d in SearchByEmail(ds, q) <==> d in ds && Contains(Lower(d.customerEmail), Lower(q))
  {
    forall d | d in ds {
      ILikeIsCaseInsensitiveContains(d.customerEmail, q);
    }
  }

  /** The query is not escaped: a search for "%" keeps every debt. */
  lemma PercentSearchKeepsAll(ds: seq<Debt>)
    ensures SearchByEmail(ds, "%") == ds
    decreases |ds|
  {
    forall e: string ensures ILike(e, "%%%") {
      assert Lower("%%%") == "%%%";
      PercentMatchesAll(Lower(e));
    }
    assert "%" + "%" + "%" == "%%%";
    FilterKeepsAll(ds, (d: Debt) => ILike(d.customerEmail, "%" + "%" + "%"));
  }

  // ------------------------------------------------------------ recent ordering

  /** Newest first: created_at never increases along the sequence. */
  predicate NewestFirst(s: seq<Debt>) {
    forall i, j :: 0 <= i < j < |s| ==> s[i].createdAt >= s[j].createdAt
  }

  /** Putting a row no newer than the head behind it keeps the order. */
  lemma PrependOlderHead(h: Debt, rest: seq<Debt>)
    requires NewestFirst(rest)
    requires forall x :: x in rest ==> x.createdAt <= h.createdAt
    ensures NewestFirst([h] + rest)
  {
    var r := [h] + rest;
    forall i, j | 0 <= i < j < |r| ensures r[i].createdAt >= r[j].createdAt {
      if i == 0 {
        assert r[j] == rest[j - 1];
        assert rest[j - 1] in rest;
      } else {
        assert r[i] == rest[i - 1] && r[j] == rest[j - 1];
      }
    }
  }

  /** Every row of `rest` is one of `s` or `d`, so none is newer than `h`. */
  lemma BoundedByHead(h: Debt, d: Debt, s: seq<Debt>, rest: seq<Debt>)
    requires multiset(rest) == multiset(s) + multiset{d}
    requires d.createdAt <= h.createdAt
    requires forall x :: x in s ==> x.createdAt <= h.createdAt
    ensures forall x :: x in rest ==> x.createdAt <= h.createdAt
  {
    forall x | x in rest ensures x.createdAt <= h.createdAt {
      assert x in multiset(rest);
      assert x == d || x in multiset(s);
    }
  }

  /** The tail of a newest-first list is newest first, and no row in it is newer than the head. */
  lemma HeadBoundsTail(s: seq<Debt>)
    requires NewestFirst(s) && s != []
    ensures NewestFirst(s[1..])
    ensures forall x :: x in s[1..] ==> x.createdAt <= s[0].createdAt
    ensures s == [s[0]] + s[1..]
  {
    var tail := s[1..];
    forall x | x in tail ensures x.createdAt <= s[0].createdAt {
      var k :| 0 <= k < |tail| && tail[k] == x;
      assert s[k + 1] == x;
    }
  }

  function InsertByRecency(d: Debt, s: seq<Debt>): (r: seq<Debt>)
    requires NewestFirst(s)
    ensures NewestFirst(r)
    ensures multiset(r) == multiset(s) + multiset{d}
    ensures |r| == |s| + 1
  {
    if s == [] || d.createdAt >= s[0].createdAt then
      PrependOlderHead(d, s);
      [d] + s
    else
      var tail := s[1..];
      HeadBoundsTail(s);
      var rest := InsertByRecency(d, tail);
      BoundedByHead(s[0], d, tail, rest);
      PrependOlderHead(s[0], rest);
      [s[0]] + rest
  }

  /**
   * `recent`: order(created_at: :desc). Rows with equal created_at keep no
   * particular order in the database; here they keep their store order.
   */
  function Recent(s: seq<Debt>): (r: seq<Debt>)
    ensures NewestFirst(r)
    ensures multiset(r) == multiset(s)
    ensures |r| == |s|
  {
    if s == [] then []
    else
      assert s == [s[0]] + s[1..];
      InsertByRecency(s[0], Recent(s[1..]))
  }

  /** The recent ordering holds exactly the rows it was given. */
  lemma RecentSameRows(s: seq<Debt>)
    ensures forall d :: d in Recent(s) <==> d in s
  {
    assert forall d :: d in Recent(s) <==> d in multiset(Recent(s));
    assert forall d :: d in s <==> d in multiset(s);
  }
}
