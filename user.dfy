/**
 * The User record (app/models/user.rb): the role enum, its scopes and the
 * session lookup. Passwords, confirmation and the rest of Devise are not part
 * of this model; `salt` stands for Devise's authenticatable salt.
 */
module Users {

  import opened Basics

  datatype Role = Admin | Customer

  /** `role` is nil only on a record that has not been given one (User.new). */
  datatype User = User(id: nat, email: string, role: Option<Role>, confirmedAt: Option<int>, salt: string)

  predicate IsAdmin(u: User) { u.role == Some(Admin) }
  predicate IsCustomer(u: User) { u.role == Some(Customer) }

  /** `validates :role, presence: true`. */
  predicate RoleValid(u: User) { u.role.Some? }

  /** The rows of the users table: ids are distinct and every role is set. */
  ghost predicate UsersValid(us: seq<User>) {
    (forall i, j :: 0 <= i < j < |us| ==> us[i].id != us[j].id)
    && forall u :: u in us ==> RoleValid(u)
  }

  /** A user record holds exactly one of the two roles. */
  lemma ExactlyOneRole(u: User)
    requires RoleValid(u)
    ensures IsAdmin(u) != IsCustomer(u)
  {
    match u.role.value
    case Admin =>
    case Customer =>
  }

  function Admins(us: seq<User>): (r: seq<User>)
    ensures forall u :: u in r <==> u in us && IsAdmin(u)
  {
    Filter(us, (u: User) => IsAdmin(u))
  }

  function Customers(us: seq<User>): (r: seq<User>)
    ensures forall u :: u in r <==> u in us && IsCustomer(u)
  {
    Filter(us, (u: User) => IsCustomer(u))
  }

  function Confirmed(us: seq<User>): (r: seq<User>)
    ensures forall u :: u in r <==> u in us && u.confirmedAt.Some?
  {
    Filter(us, (u: User) => u.confirmedAt.Some?)
  }

  /** On valid rows, `admins` and `customers` split the table: every row lands in exactly one. */
  lemma {:induction false} RoleScopesPartition(us: seq<User>)
    requires forall u :: u in us ==> RoleValid(u)
    ensures |Admins(us)| + |Customers(us)| == |us|
    ensures multiset(Admins(us)) + multiset(Customers(us)) == multiset(us)
  {
    if us != [] {
      var h, t := us[0], us[1..];
      assert us == [h] + t;
      RoleScopesPartition(t);
      ExactlyOneRole(h);
      if IsAdmin(h) {
        assert Admins(us) == [h] + Admins(t) && Customers(us) == Customers(t);
      } else {
        assert Admins(us) == Admins(t) && Customers(us) == [h] + Customers(t);
      }
    }
  }

  /** `to_adapter.get(key)`: the row with that id. */
  function FindUser(us: seq<User>, id: nat): (r: Option<User>)
    ensures r.Some? ==> r.value in us && r.value.id == id
    ensures r.None? ==> forall u :: u in us ==> u.id != id
  {
    if us == [] then None
    else if us[0].id == id then Some(us[0])
    else FindUser(us[1..], id)
  }

  /**
   * `serialize_from_session(key, salt)`: the stored user with id `key`, provided
   * no salt was given or it equals the user's salt.
   */
  function SerializeFromSession(us: seq<User>, key: nat, salt: Option<string>): (r: Option<User>)
    ensures r.Some? ==> r.value in us && r.value.id == key
    ensures r.Some? <==> FindUser(us, key).Some? && (salt.None? || salt.value == FindUser(us, key).value.salt)
  {
    match FindUser(us, key)
    case None => None
    case Some(u) => if salt.None? || u.salt == salt.value then Some(u) else None
  }

  /** With distinct ids, the session lookup yields the one user with that id. */
  lemma SessionUserIsThatRow(us: seq<User>, key: nat, salt: Option<string>, u: User)
    requires UsersValid(us) && u in us && u.id == key
    ensures SerializeFromSession(us, key, salt) == (if salt.None? || salt.value == u.salt then Some(u) else None)
  {
    var f := FindUser(us, key).value;
    var i :| 0 <= i < |us| && us[i] == u;
    var j :| 0 <= j < |us| && us[j] == f;
    assert i == j;
  }
}
