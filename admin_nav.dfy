/** The admin layout's side navigation and which of its entries is
    highlighted for the current path. */
module AdminNav {
  import opened Lists

  /** One entry: its target path, its caption, and whether only the exact
      path activates it. */
  datatype NavItem = NavItem(to: string, caption: string, exact: bool)

  const Dashboard: NavItem := NavItem("/admin", "Dashboard", true)
  const JobsItem: NavItem := NavItem("/admin/jobs", "Jobs", false)
  const ApplicationsItem: NavItem := NavItem("/admin/applications", "Applications", false)

  const NavItems: seq<NavItem> := [Dashboard, JobsItem, ApplicationsItem]

  /** `isActive(path, exact)`: the pathname equals the path when `exact`,
      and starts with it otherwise. */
  function IsActive(pathname: string, path: string, exact: bool): (active: bool)
    ensures exact ==> (active <==> pathname == path)
    ensures !exact ==> (active <==> |path| <= |pathname| && pathname[..|path|] == path)
  {
    if exact then pathname == path else StartsWith(pathname, path)
  }

  /** An entry active on the exact path would be active as a prefix too. */
  lemma ExactImpliesPrefix(pathname: string, path: string)
    requires IsActive(pathname, path, true)
    ensures IsActive(pathname, path, false)
  {
    assert pathname[..|path|] == pathname;
  }

  /** A path activates every non-exact entry it extends. */
  lemma LongerPathStaysActive(pathname: string, path: string, suffix: string)
    requires IsActive(pathname, path, false)
    ensures IsActive(pathname + suffix, path, false)
  {
    assert (pathname + suffix)[..|path|] == pathname[..|path|];
  }

  /** On the jobs page only "Jobs" is highlighted; the dashboard's exact
      flag keeps it from matching as a prefix. */
  lemma ActiveOnJobsPage()
    ensures !IsActive("/admin/jobs", Dashboard.to, Dashboard.exact)
    ensures IsActive("/admin/jobs", JobsItem.to, JobsItem.exact)
    ensures !IsActive("/admin/jobs", ApplicationsItem.to, ApplicationsItem.exact)
    ensures IsActive("/admin/jobs", Dashboard.to, false)
  {
    assert "/admin/jobs"[..|"/admin"|] == "/admin";
    assert "/admin/jobs"[..|"/admin/jobs"|] == "/admin/jobs";
  }

  /** On the dashboard only "Dashboard" is highlighted. */
  lemma ActiveOnDashboard()
    ensures IsActive("/admin", Dashboard.to, Dashboard.exact)
    ensures !IsActive("/admin", JobsItem.to, JobsItem.exact)
    ensures !IsActive("/admin", ApplicationsItem.to, ApplicationsItem.exact)
  {
  }
}
