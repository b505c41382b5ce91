/** The admin applications page: the list loaded from the server, its two
    filter selects, the application opened in the detail panel, and the
    handlers that change the status of an application or delete it once
    the server has accepted the change. */
module ApplicationsPage {
  import opened Outcomes
  import opened Lists
  import opened Schema
  import opened Admin

  /** The type select: "" (all), "spontaneous" or "job"; any other value
      matches nothing. */
  predicate TypeMatches(filterType: string, a: Application)
  {
    filterType == "" || (filterType == "spontaneous" && a.isSpontaneous) || (filterType == "job" && !a.isSpontaneous)
  }

  /** The status select: "" (all) or a status literal. */
  predicate StatusMatches(filterStatus: string, a: Application)
  {
    filterStatus == "" || AppStatusName(a.status) == filterStatus
  }

  function MatchesBy(filterType: string, filterStatus: string): AppWithJob -> bool
  {
    (x: AppWithJob) => TypeMatches(filterType, x.application) && StatusMatches(filterStatus, x.application)
  }

  /** `filteredApplications`: the rows both selects let through, in order. */
  function FilteredApplications(items: seq<AppWithJob>, filterType: string, filterStatus: string): (r: seq<AppWithJob>)
    ensures forall x :: x in r <==>
      && x in items
      && (filterType == "" || (filterType == "spontaneous" && x.application.isSpontaneous)
          || (filterType == "job" && !x.application.isSpontaneous))
      && (filterStatus == "" || AppStatusName(x.application.status) == filterStatus)
    ensures IsSubsequence(r, items)
  {
    FilterIsSubsequence(items, MatchesBy(filterType, filterStatus));
    Filter(items, MatchesBy(filterType, filterStatus))
  }

  /** For the values its selects offer, the page filters as the server's
      `?type=&status=` query does. */
  lemma {:induction false} PageFilterAgreesWithServer(items: seq<AppWithJob>, filterType: string, filterStatus: string)
    requires filterType == "" || filterType == "spontaneous" || filterType == "job"
    ensures FilteredApplications(items, filterType, filterStatus) == FilterApplications(items, Some(filterType), Some(filterStatus))
  {
    var page := MatchesBy(filterType, filterStatus);
    var byStatus := (x: AppWithJob) => AppStatusName(x.application.status) == filterStatus;
    var byType :=
      if filterType == "spontaneous" then (x: AppWithJob) => x.application.isSpontaneous
      else if filterType == "job" then (x: AppWithJob) => !x.application.isSpontaneous
      else (x: AppWithJob) => true;
    var typed := if filterType == "" then items else Filter(items, byType);
    if filterType == "" {
      FilterAll(items, byType);
    }
    if filterStatus == "" {
      FilterExtensional(items, page, byType);
    } else {
      FilterFilter(items, byType, byStatus, page);
    }
  }

  /** An unknown type value hides every row, where the server would ignore it. */
  lemma UnknownTypeHidesEverything(items: seq<AppWithJob>, filterType: string, filterStatus: string)
    requires filterType != "" && filterType != "spontaneous" && filterType != "job"
    ensures FilteredApplications(items, filterType, filterStatus) == []
  {
    EmptyIffNoMember(FilteredApplications(items, filterType, filterStatus));
  }

  /** The row with its application's status replaced. */
  function WithStatus(x: AppWithJob, status: AppStatus): AppWithJob
  {
    x.(application := x.application.(status := status))
  }

  /** The `prev.map(...)` of `handleStatusChange`: every row stays in its
      place with its id and its job. */
  function SetStatusById(items: seq<AppWithJob>, id: string, status: AppStatus): (r: seq<AppWithJob>)
    ensures |r| == |items|
    ensures forall i :: 0 <= i < |r| ==> r[i].application.id == items[i].application.id && r[i].job == items[i].job
  {
    seq(|items|, i requires 0 <= i < |items| =>
      if items[i].application.id == id then WithStatus(items[i], status) else items[i])
  }

  /** A status change touches nothing but the status of the rows with that
      id, and afterwards those rows have the new status. */
  lemma SetStatusOnlyChangesStatus(items: seq<AppWithJob>, id: string, status: AppStatus)
    ensures forall i :: 0 <= i < |items| ==>
      && SetStatusById(items, id, status)[i].application.id == items[i].application.id
      && SetStatusById(items, id, status)[i].job == items[i].job
      && SetStatusById(items, id, status)[i].application.(status := items[i].application.status) == items[i].application
      && (items[i].application.id == id ==> SetStatusById(items, id, status)[i].application.status == status)
  {
  }

  /** Setting the same status twice is setting it once. */
  lemma SetStatusIdempotent(items: seq<AppWithJob>, id: string, status: AppStatus)
    ensures SetStatusById(SetStatusById(items, id, status), id, status) == SetStatusById(items, id, status)
  {
  }

  function KeepOtherIds(id: string): AppWithJob -> bool
  {
    (x: AppWithJob) => x.application.id != id
  }

  /** The `prev.filter(...)` of `handleDelete`. */
  function RemoveById(items: seq<AppWithJob>, id: string): (r: seq<AppWithJob>)
    ensures forall x :: x in r <==> x in items && x.application.id != id
    ensures IsSubsequence(r, items)
  {
    FilterIsSubsequence(items, KeepOtherIds(id));
    Filter(items, KeepOtherIds(id))
  }

  function RowId(x: AppWithJob): string { x.application.id }

  /** The loader's list is `GET /admin/applications`: with the primary key
      on `applications.id`, its rows carry pairwise distinct ids, whatever
      the filters. */
  lemma ListedApplicationsUnique(apps: seq<Application>, jobs: seq<Job>, typ: Option<string>, status: Option<string>)
    requires ApplicationIdsUnique(apps)
    ensures UniqueBy(ListApplications(apps, jobs, typ, status), RowId)
  {
    var joined := LeftJoin(apps, jobs);
    assert UniqueBy(joined, RowId) by {
      forall i, j | 0 <= i < j < |joined| ensures RowId(joined[i]) != RowId(joined[j]) {
        assert joined[i].application == apps[i] && joined[j].application == apps[j];
      }
    }
    var ordered := SortBy(joined, NewestFirst);
    SortByUnique(joined, NewestFirst, RowId);
    var bySpontaneous := (x: AppWithJob) => x.application.isSpontaneous;
    var byJob := (x: AppWithJob) => !x.application.isSpontaneous;
    FilterUnique(ordered, bySpontaneous, RowId);
    FilterUnique(ordered, byJob, RowId);
    var byType :=
      if typ == Some("spontaneous") then Filter(ordered, bySpontaneous)
      else if typ == Some("job") then Filter(ordered, byJob)
      else ordered;
    if status.Some? && status.value != "" {
      FilterUnique(byType, (x: AppWithJob) => AppStatusName(x.application.status) == status.value, RowId);
    }
  }

  class ApplicationsPage {
    var applications: seq<AppWithJob>
    var filterType: string
    var filterStatus: string
    var selectedApp: Option<AppWithJob>

    /** The rows the page shows. */
    function Visible(): (r: seq<AppWithJob>)
      reads this
      ensures IsSubsequence(r, applications)
    {
      FilteredApplications(applications, filterType, filterStatus)
    }

    /** The loader's rows are keyed by application id. */
    ghost predicate Valid()
      reads this
    {
      UniqueBy(applications, RowId)
    }

    /** The page as it mounts: the loaded rows, no filter, nothing selected. */
    constructor (loaded: seq<AppWithJob>)
      requires UniqueBy(loaded, RowId)
      ensures Valid()
      ensures applications == loaded && filterType == "" && filterStatus == "" && selectedApp == None
      ensures Visible() == loaded
    {
      applications, filterType, filterStatus, selectedApp := loaded, "", "", None;
      FilterAll(loaded, MatchesBy("", ""));
    }

    method SetFilterType(value: string)
      modifies this
      ensures filterType == value
      ensures applications == old(applications) && filterStatus == old(filterStatus) && selectedApp == old(selectedApp)
    {
      filterType := value;
    }

    method SetFilterStatus(value: string)
      modifies this
      ensures filterStatus == value
      ensures applications == old(applications) && filterType == old(filterType) && selectedApp == old(selectedApp)
    {
      filterStatus := value;
    }

    /** `handleStatusChange`. `serverOk` is whether `updateApplicationStatus`
        resolved; when it throws, nothing changes. */
    method HandleStatusChange(id: string, status: AppStatus, serverOk: bool)
      requires Valid()
      modifies this
      ensures Valid()
      ensures filterType == old(filterType) && filterStatus == old(filterStatus)
      ensures !serverOk ==> applications == old(applications) && selectedApp == old(selectedApp)
      ensures serverOk ==> applications == SetStatusById(old(applications), id, status)
      ensures serverOk && old(selectedApp).Some? && old(selectedApp).value.application.id == id ==>
        selectedApp == Some(WithStatus(old(selectedApp).value, status))
      ensures serverOk && (old(selectedApp).None? || old(selectedApp).value.application.id != id) ==>
        selectedApp == old(selectedApp)
    {
      if !serverOk {
        return;
      }
      var updated := SetStatusById(applications, id, status);
      forall i, j | 0 <= i < j < |updated| ensures RowId(updated[i]) != RowId(updated[j]) {
        assert RowId(updated[i]) == RowId(applications[i]) && RowId(updated[j]) == RowId(applications[j]);
      }
      applications := updated;
      if selectedApp.Some? && selectedApp.value.application.id == id {
        selectedApp := Some(WithStatus(selectedApp.value, status));
      }
    }

    /** `handleDelete`. `confirmed` is the answer to the confirmation dialog
        and `serverOk` whether `deleteApplication` resolved. */
    method HandleDelete(id: string, confirmed: bool, serverOk: bool)
      requires Valid()
      modifies this
      ensures Valid()
      ensures filterType == old(filterType) && filterStatus == old(filterStatus)
      ensures !(confirmed && serverOk) ==> applications == old(applications) && selectedApp == old(selectedApp)
      ensures confirmed && serverOk ==>
        && applications == RemoveById(old(applications), id)
        && selectedApp == if old(selectedApp).Some? && old(selectedApp).value.application.id == id then None else old(selectedApp)
    {
      if !confirmed || !serverOk {
        return;
      }
      FilterUnique(applications, KeepOtherIds(id), RowId);
      applications := RemoveById(applications, id);
      if selectedApp.Some? && selectedApp.value.application.id == id {
        selectedApp := None;
      }
    }
  }

  /** With unique ids, a confirmed delete removes exactly one row when the
      id is listed and none otherwise. */
  lemma RemoveByIdCount(items: seq<AppWithJob>, id: string)
    requires UniqueBy(items, RowId)
    ensures (exists x :: x in items && x.application.id == id) ==> |RemoveById(items, id)| == |items| - 1
    ensures (forall x :: x in items ==> x.application.id != id) ==> RemoveById(items, id) == items
  {
    if exists x :: x in items && x.application.id == id {
      var x :| x in items && x.application.id == id;
      var i :| 0 <= i < |items| && items[i] == x;
      FilterDropsOneKey(items, KeepOtherIds(id), RowId, id, i);
    }
    if forall x :: x in items ==> x.application.id != id {
      FilterAll(items, KeepOtherIds(id));
    }
  }
}
