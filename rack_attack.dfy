/**
 * The Rack::Attack rules (config/initializers/rack_attack.rb): a safelist for
 * localhost, a Fail2Ban blocklist for admin requests without a user agent,
 * and four throttles, each deriving a key (or none) from the request.
 *
 * The counters live in Rack::Attack's cache; here they are inputs: for each
 * throttle, how many requests with the same key it has already counted in
 * the current period, and the set of IPs Fail2Ban has banned.
 *
 * A rule block that raises ends the request inside the middleware; the
 * application's exception handling answers it with 500.
 */
module RackAttack {

  import opened Basics

  datatype HttpMethod = GET | POST | PUT | PATCH | DELETE | HEAD

  /** `params['user']`: absent, a nested hash of fields, a plain string, or an array (`user[]=x`). */
  datatype UserParam =
    | NoUser
    | UserHash(fields: map<string, string>)
    | UserString(text: string)
    | UserArray(items: seq<string>)

  datatype Request = Request(ip: string, verb: HttpMethod, path: string, user: UserParam, userAgent: Option<string>)

  /** 'allow from localhost'. */
  predicate Safelisted(r: Request) {
    r.ip == "127.0.0.1" || r.ip == "::1"
  }

  // ---------------------------------------------------------------- throttles

  datatype Throttle = EmailsIp | LoginsEmail | RegistrationsIp | DebtAccessIp

  /** The throttles in the order they are declared, which is the order they are checked. */
  const Throttles: seq<Throttle> := [EmailsIp, LoginsEmail, RegistrationsIp, DebtAccessIp]

  function Limit(t: Throttle): (n: nat)
    ensures n > 0
  {
    match t
    case EmailsIp => 5
    case LoginsEmail => 5
    case RegistrationsIp => 3
    case DebtAccessIp => 10
  }

  /** The period of each throttle, in seconds. */
  function Period(t: Throttle): (n: nat)
    ensures n >= 60
  {
    match t
    case EmailsIp => 3600
    case LoginsEmail => 1200
    case RegistrationsIp => 3600
    case DebtAccessIp => 60
  }

  /** 'emails/ip': the IP of a POST whose path contains "/debts". */
  function EmailsKey(r: Request): (k: Option<string>)
    ensures k.Some? <==> r.verb == POST && Contains(r.path, "/debts")
    ensures k.Some? ==> k.value == r.ip
  {
    if Contains(r.path, "/debts") && r.verb == POST then Some(r.ip) else None
  }

  /**
   * `req.params['user']&.[]('email')`: the field of a hash; on a string,
   * String#[] gives "email" itself when the string contains it. On an array,
   * Array#[] refuses a string index and raises TypeError: see `LoginsRaises`.
   */
  function SubmittedEmail(u: UserParam): (e: Option<string>)
    ensures u.UserHash? ==> (e.Some? <==> "email" in u.fields)
    ensures e.Some? && u.UserHash? ==> e.value == u.fields["email"]
    ensures u.UserString? ==> (e.Some? <==> Contains(u.text, "email")) && (e.Some? ==> e.value == "email")
    ensures u.NoUser? || u.UserArray? ==> e.None?
  {
    match u
    case NoUser => None
    case UserHash(fields) => if "email" in fields then Some(fields["email"]) else None
    case UserString(text) => if Contains(text, "email") then Some("email") else None
    case UserArray(_) => None
  }

  /** The 'logins/email' block raises TypeError: a sign-in POST whose user parameter is an array. */
  predicate LoginsRaises(r: Request) {
    r.path == "/users/sign_in" && r.verb == POST && r.user.UserArray?
  }

  /** 'logins/email': on a POST to exactly "/users/sign_in", the submitted e-mail when it is not blank. */
  function LoginsKey(r: Request): (k: Option<string>)
    ensures k.Some? <==>
      (r.path == "/users/sign_in" && r.verb == POST
       && SubmittedEmail(r.user).Some? && Present(SubmittedEmail(r.user).value))
    ensures k.Some? ==> k.value == SubmittedEmail(r.user).value
  {
    if r.path == "/users/sign_in" && r.verb == POST then
      match SubmittedEmail(r.user)
      case None => None
      case Some(e) => Presence(e)
    else None
  }

  /** 'registrations/ip': the IP of a POST to exactly "/users". */
  function RegistrationsKey(r: Request): (k: Option<string>)
    ensures k.Some? <==> r.verb == POST && r.path == "/users"
    ensures k.Some? ==> k.value == r.ip
  {
    if r.path == "/users" && r.verb == POST then Some(r.ip) else None
  }

  /** 'debt_access/ip': the IP of any request whose path contains "/pohledavky/". */
  function DebtAccessKey(r: Request): (k: Option<string>)
    ensures k.Some? <==> Contains(r.path, "/pohledavky/")
    ensures k.Some? ==> k.value == r.ip
  {
    if Contains(r.path, "/pohledavky/") then Some(r.ip) else None
  }

  function Key(t: Throttle, r: Request): Option<string> {
    match t
    case EmailsIp => EmailsKey(r)
    case LoginsEmail => LoginsKey(r)
    case RegistrationsIp => RegistrationsKey(r)
    case DebtAccessIp => DebtAccessKey(r)
  }

  /**
   * A throttle stops the request when it yields a key and, counting this
   * request, its count for the period exceeds the limit.
   */
  predicate Exceeds(t: Throttle, r: Request, prior: Throttle -> nat) {
    Key(t, r).Some? && prior(t) + 1 > Limit(t)
  }

  /** Where a throttle stands in the declaration order. */
  function Position(t: Throttle): (i: nat)
    ensures i < |Throttles| && Throttles[i] == t
  {
    match t
    case EmailsIp => 0
    case LoginsEmail => 1
    case RegistrationsIp => 2
    case DebtAccessIp => 3
  }

  /** The throttle's block raises on this request instead of giving a key. */
  predicate Raises(t: Throttle, r: Request) {
    t == LoginsEmail && LoginsRaises(r)
  }

  /** The throttle ends the check here: its block raises, or it keys the request and is over its limit. */
  predicate Halts(t: Throttle, r: Request, prior: Throttle -> nat) {
    Raises(t, r) || Exceeds(t, r, prior)
  }

  /** The first throttle of `ts` that stops the request, by raising or by throttling it. */
  function FirstHalting(ts: seq<Throttle>, r: Request, prior: Throttle -> nat): (f: Option<Throttle>)
    ensures f.Some? <==> exists i :: 0 <= i < |ts| && Halts(ts[i], r, prior)
    ensures f.Some? ==> f.value in ts && Halts(f.value, r, prior)
    ensures f.Some? ==> forall i :: 0 <= i < |ts| && ts[i] != f.value && Halts(ts[i], r, prior) ==>
      exists j :: 0 <= j < i && ts[j] == f.value
  {
    if ts == [] then None
    else if Halts(ts[0], r, prior) then Some(ts[0])
    else
      var f := FirstHalting(ts[1..], r, prior);
      assert forall i :: 1 <= i < |ts| ==> ts[i] == ts[1..][i - 1];
      f
  }

  // ----------------------------------------------------------------- blocklist

  /** The condition inside the Fail2Ban filter: an admin path requested without a user agent. */
  predicate Suspicious(r: Request) {
    Contains(r.path, "/admin") && (r.userAgent.None? || Blank(r.userAgent.value))
  }

  /**
   * 'block suspicious admin access': Fail2Ban blocks a banned IP's every
   * request, and blocks each suspicious request itself (counting it towards a ban).
   */
  predicate Blocklisted(r: Request, banned: set<string>) {
    r.ip in banned || Suspicious(r)
  }

  // ------------------------------------------------------------------ decision

  datatype Verdict = Allowed | Blocked | Throttled(rule: Throttle) | Raised

  /** Safelist first, then the blocklist, then the throttles in order. */
  function Decide(r: Request, prior: Throttle -> nat, banned: set<string>): (v: Verdict)
    ensures Safelisted(r) ==> v == Allowed
    ensures !Safelisted(r) && Blocklisted(r, banned) ==> v == Blocked
    ensures v.Throttled? ==> Key(v.rule, r).Some? && prior(v.rule) >= Limit(v.rule)
    ensures v == Raised ==> LoginsRaises(r)
  {
    if Safelisted(r) then Allowed
    else if Blocklisted(r, banned) then Blocked
    else
      match FirstHalting(Throttles, r, prior)
      case Some(t) => if Raises(t, r) then Raised else Throttled(t)
      case None => Allowed
  }

  datatype RackResponse = RackResponse(status: nat, contentType: string, body: string)

  const BlockedResponse := RackResponse(403, "text/plain", "Forbidden\n")
  const ThrottledResponse := RackResponse(429, "text/plain", "Rate limit exceeded. Please try again later.")

  /** The answer to an exception raised inside the middleware: the generic error page. */
  const ErrorResponse := RackResponse(500, "text/html", "")

  /** The response Rack::Attack answers with; None lets the request through to the application. */
  function Respond(v: Verdict): (resp: Option<RackResponse>)
    ensures resp.None? <==> v == Allowed
    ensures v.Throttled? ==> resp == Some(ThrottledResponse)
    ensures v == Raised ==> resp.Some? && resp.value.status == 500
  {
    match v
    case Allowed => None
    case Blocked => Some(BlockedResponse)
    case Throttled(_) => Some(ThrottledResponse)
    case Raised => Some(ErrorResponse)
  }

  // ---------------------------------------------------------------- properties

  /** Only the two loopback addresses are safelisted, and they are never blocked or throttled. */
  lemma LocalhostAlwaysPasses(r: Request, prior: Throttle -> nat, banned: set<string>)
    ensures Safelisted(r) <==> r.ip in {"127.0.0.1", "::1"}
    ensures Safelisted(r) ==> Respond(Decide(r, prior, banned)).None?
  {
  }

  /**
   * Past the safelist and the blocklist, a sign-in POST with an array user
   * parameter raises whatever the counts; any other request is throttled
   * exactly when some throttle keys it and is over its limit.
   */
  lemma ThrottledIff(r: Request, prior: Throttle -> nat, banned: set<string>)
    requires !Safelisted(r) && !Blocklisted(r, banned)
    ensures Decide(r, prior, banned) == Raised <==> LoginsRaises(r)
    ensures Decide(r, prior, banned).Throttled? <==>
      !LoginsRaises(r) && exists t :: Key(t, r).Some? && prior(t) >= Limit(t)
    ensures Decide(r, prior, banned) == Allowed <==>
      !LoginsRaises(r) && forall t :: Key(t, r).Some? ==> prior(t) < Limit(t)
  {
    if LoginsRaises(r) {
      RaisingSignInHaltsAtLogins(r, prior);
    } else {
      assert forall t :: Halts(t, r, prior) == Exceeds(t, r, prior);
      if exists t :: Key(t, r).Some? && prior(t) >= Limit(t) {
        var t :| Key(t, r).Some? && prior(t) >= Limit(t);
        assert Halts(Throttles[Position(t)], r, prior);
      }
    }
  }

  /** The sign-in path has no "/debts" in it, so the e-mail throttle, checked first, never keys it. */
  lemma RaisingSignInHaltsAtLogins(r: Request, prior: Throttle -> nat)
    requires LoginsRaises(r)
    ensures FirstHalting(Throttles, r, prior) == Some(LoginsEmail)
  {
    assert 'd' !in r.path;
    MissingCharExcludes(r.path, "/debts", 1);
    assert !Halts(EmailsIp, r, prior);
    assert Throttles[1..] == [LoginsEmail, RegistrationsIp, DebtAccessIp];
  }

  /** A sign-in POST whose user parameter is an array ends in a 500 from any address but localhost, unless blocked. */
  lemma ArrayUserParamFails(r: Request, prior: Throttle -> nat, banned: set<string>)
    requires !Safelisted(r) && !Blocklisted(r, banned) && LoginsRaises(r)
    ensures Respond(Decide(r, prior, banned)) == Some(ErrorResponse)
  {
    ThrottledIff(r, prior, banned);
  }

  /** A throttle whose key is absent never stops a request, however high its count. */
  lemma UnkeyedNeverThrottles(r: Request, prior: Throttle -> nat, banned: set<string>, t: Throttle)
    requires Key(t, r).None?
    ensures Decide(r, prior, banned) != Throttled(t)
  {
  }

  /** Every throttled response is the same 429 with the same text. */
  lemma ThrottledResponsesAreUniform(r1: Request, r2: Request, p1: Throttle -> nat, p2: Throttle -> nat, b1: set<string>, b2: set<string>)
    requires Decide(r1, p1, b1).Throttled? && Decide(r2, p2, b2).Throttled?
    ensures Respond(Decide(r1, p1, b1)) == Respond(Decide(r2, p2, b2)) == Some(ThrottledResponse)
    ensures ThrottledResponse.status == 429
  {
  }

  /** An admin path requested with no user agent is blocked, from any address but localhost, whatever the counts. */
  lemma SuspiciousAdminBlocked(r: Request, prior: Throttle -> nat, banned: set<string>)
    requires !Safelisted(r) && Contains(r.path, "/admin") && r.userAgent.None?
    ensures Decide(r, prior, banned) == Blocked
    ensures Respond(Decide(r, prior, banned)) == Some(BlockedResponse)
  {
  }

  /** The debt-access rule keys admin paths too: "/admin/pohledavky/7" counts against the IP. */
  lemma DebtAccessCoversAdminPaths(ip: string, m: HttpMethod, u: UserParam, agent: Option<string>)
    ensures DebtAccessKey(Request(ip, m, "/admin/pohledavky/7", u, agent)) == Some(ip)
  {
    var path := "/admin/pohledavky/7";
    assert IsPrefixOf("/pohledavky/", path[6..]);
    ContainsAt(path, "/pohledavky/");
  }

  /** A login whose user parameter is a string mentioning "email" is keyed by the word "email" itself. */
  lemma StringUserParamKeysByWord(ip: string, text: string, agent: Option<string>)
    requires Contains(text, "email")
    ensures LoginsKey(Request(ip, POST, "/users/sign_in", UserString(text), agent)) == Some("email")
  {
    assert !IsSpace("email"[0]);
  }
}
