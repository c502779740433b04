/**
 * Admin::DashboardController (app/controllers/admin/dashboard_controller.rb):
 * the admin's overview, three counts and the ten newest debts. It only reads.
 */
module AdminDashboard {

  import opened Basics
  import opened Debts
  import opened Users
  import AdminBase
  import Application
  import Web

  const RecentLimit: nat := 10

  /** `Debt.recent.limit(10)`. */
  function RecentTen(ds: seq<Debt>): (r: seq<Debt>)
    ensures |r| == if |ds| <= RecentLimit then |ds| else RecentLimit
    ensures NewestFirst(r)
    ensures r == Recent(ds)[..|r|]
  {
    Recent(ds)[..if |ds| <= RecentLimit then |ds| else RecentLimit]
  }

  /** The page `index` renders for the table `ds` on day `today`. */
  function Dashboard(ds: seq<Debt>, today: int): (v: Web.View<Debt>)
    ensures v.DashboardPage?
  {
    Web.DashboardPage(|ds|, |WithStatus(ds, Pending)|, |OverdueScope(ds, today)|, RecentTen(ds))
  }

  function Index(ds: seq<Debt>, user: Option<User>, today: int): (r: Web.Response<Debt>)
    ensures AdminBase.AdminFilters(Application.AdminDashboardController, Web.IndexAction, user).Proceed? <==>
      r == Web.Rendered(Dashboard(ds, today), Web.OK)
  {
    var g := AdminBase.AdminFilters(Application.AdminDashboardController, Web.IndexAction, user);
    if g.Halt? then Web.Halted(g) else Web.Rendered(Dashboard(ds, today), Web.OK)
  }

  /** The number of stored debts in status `s`. */
  function CountWithStatus(ds: seq<Debt>, s: Status): (n: nat)
    ensures n <= |ds|
  {
    |WithStatus(ds, s)|
  }

  /** Every stored debt has exactly one status (the column is NOT NULL), so the five status counts add up to the total. */
  lemma {:induction false} StatusCountsSumToTotal(ds: seq<Debt>)
    requires forall i :: 0 <= i < |ds| ==> ds[i].status.Some?
    ensures CountWithStatus(ds, Pending) + CountWithStatus(ds, Notified) + CountWithStatus(ds, Viewed)
      + CountWithStatus(ds, Registered) + CountWithStatus(ds, Resolved) == |ds|
  {
    if ds != [] {
      assert forall i :: 0 <= i < |ds[1..]| ==> ds[1..][i] == ds[i + 1];
      StatusCountsSumToTotal(ds[1..]);
      CountStep(ds, Pending);
      CountStep(ds, Notified);
      CountStep(ds, Viewed);
      CountStep(ds, Registered);
      CountStep(ds, Resolved);
      ExactlyOneStatus(ds[0].status);
    }
  }

  /** A set status is exactly one of the five. */
  lemma ExactlyOneStatus(x: Option<Status>)
    requires x.Some?
    ensures (if x == Some(Pending) then 1 else 0) + (if x == Some(Notified) then 1 else 0)
      + (if x == Some(Viewed) then 1 else 0) + (if x == Some(Registered) then 1 else 0)
      + (if x == Some(Resolved) then 1 else 0) == 1
  {
    assert x == Some(x.value);
    match x.value
    case Pending =>
    case Notified =>
    case Viewed =>
    case Registered =>
    case Resolved =>
  }

  /** The first row adds one to the count of its own status and nothing to the others. */
  lemma CountStep(ds: seq<Debt>, s: Status)
    requires ds != []
    ensures CountWithStatus(ds, s) == (if ds[0].status == Some(s) then 1 else 0) + CountWithStatus(ds[1..], s)
  {
    assert ds == [ds[0]] + ds[1..];
  }

  /** The pending and overdue counts never exceed the total; each counts exactly its rows. */
  lemma CountsMeanWhatTheySay(ds: seq<Debt>, today: int)
    ensures var v := Dashboard(ds, today);
      v.pending <= v.total && v.overdue <= v.total && v.total == |ds|
      && (v.pending == 0 <==> forall d :: d in ds ==> d.status != Some(Pending))
      && (v.overdue == 0 <==> forall d :: d in ds ==> !IsOverdue(d, today))
  {
    var p := WithStatus(ds, Pending);
    var o := OverdueScope(ds, today);
    if |p| != 0 {
      assert p[0] in p;
    }
    if |o| != 0 {
      assert o[0] in o;
    }
  }

  /** The recent list holds at most ten stored debts, newest first, and with ten or fewer debts it holds every one. */
  lemma RecentListBounds(ds: seq<Debt>, today: int)
    ensures var v := Dashboard(ds, today);
      |v.recent| <= RecentLimit && NewestFirst(v.recent)
      && (forall d :: d in v.recent ==> d in ds)
      && (|ds| <= RecentLimit ==> multiset(v.recent) == multiset(ds))
  {
    var r := Recent(ds);
    RecentSameRows(ds);
    var v := Dashboard(ds, today);
    forall d | d in v.recent ensures d in ds {
      var k :| 0 <= k < |v.recent| && v.recent[k] == d;
      assert r[k] == d;
    }
    if |ds| <= RecentLimit {
      assert v.recent == r;
    }
  }

  /** A debt newer than one on the list is on the list too: the ten are the newest. */
  lemma RecentTenAreNewest(ds: seq<Debt>, i: nat, j: nat)
    requires i < |RecentTen(ds)| <= j < |Recent(ds)|
    ensures RecentTen(ds)[i].createdAt >= Recent(ds)[j].createdAt
  {
    assert RecentTen(ds)[i] == Recent(ds)[i];
  }
}
