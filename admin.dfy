/** The read side of the admin API: the bearer-token guard, the job list,
    the application list with its type and status filters, the joined
    application detail and the dashboard statistics. The writes of the
    admin API are methods of the store (module Store). */
module Admin {
  import opened Outcomes
  import opened Lists
  import opened Schema

  const AdminToken: string := "admin-secret-token"

  /** The `adminAuth` middleware: a request passes only when its
      Authorization header is the whole string "Bearer <token>". The
      comparison is verbatim, so the scheme name is case-sensitive and no
      extra whitespace is tolerated. */
  function AdminAuth(authorization: Option<string>): (passes: bool)
    ensures passes <==> authorization == Some("Bearer admin-secret-token")
  {
    assert "Bearer " + AdminToken == "Bearer admin-secret-token";
    authorization.Some? && authorization.value != "" && authorization.value == "Bearer " + AdminToken
  }

  lemma AdminAuthRejectsNearMisses()
    ensures !AdminAuth(None)
    ensures !AdminAuth(Some(""))
    ensures !AdminAuth(Some("bearer admin-secret-token"))
    ensures !AdminAuth(Some("admin-secret-token"))
    ensures !AdminAuth(Some("Bearer admin-secret-token "))
  {
  }

  /** One row of the `applications LEFT JOIN jobs` query. */
  datatype AppWithJob = AppWithJob(application: Application, job: Option<Job>)

  /** `applications LEFT JOIN jobs ON applications.job_id = jobs.id`: one row
      per application, with its job when the reference resolves. */
  function LeftJoin(apps: seq<Application>, jobs: seq<Job>): (rows: seq<AppWithJob>)
    ensures |rows| == |apps|
    ensures forall i :: 0 <= i < |rows| ==> rows[i].application == apps[i]
    ensures forall i :: 0 <= i < |rows| && rows[i].job.Some? ==>
      rows[i].job.value in jobs && apps[i].jobId == Some(rows[i].job.value.id)
    ensures forall i :: 0 <= i < |rows| && rows[i].job.None? ==>
      apps[i].jobId.None? || !HasJob(jobs, apps[i].jobId.value)
  {
    seq(|apps|, i requires 0 <= i < |apps| =>
      AppWithJob(apps[i], if apps[i].jobId.Some? then JobById(jobs, apps[i].jobId.value) else None))
  }

  /** `GET /admin/jobs`: every job whatever its status, newest first. */
  function AdminListJobs(jobs: seq<Job>): (r: seq<Job>)
    ensures multiset(r) == multiset(jobs)
    ensures forall i, k :: 0 <= i < k < |r| ==> r[i].createdAt >= r[k].createdAt
  {
    var sorted := SortBy(jobs, (j: Job) => -(j.createdAt as int));
    assert forall i, k :: 0 <= i < k < |sorted| ==> -(sorted[i].createdAt as int) <= -(sorted[k].createdAt as int);
    sorted
  }

  /** What the `type` query parameter lets through. */
  predicate TypeSelects(typ: Option<string>, a: Application)
  {
    if typ == Some("spontaneous") then a.isSpontaneous
    else if typ == Some("job") then !a.isSpontaneous
    else true
  }

  /** What the `status` query parameter lets through: no restriction when it
      is absent, not a string, or empty. */
  predicate StatusSelects(status: Option<string>, a: Application)
  {
    status.None? || status.value == "" || AppStatusName(a.status) == status.value
  }

  /** The in-memory filtering of `GET /admin/applications`. */
  function FilterApplications(rows: seq<AppWithJob>, typ: Option<string>, status: Option<string>): (r: seq<AppWithJob>)
    ensures forall x :: x in r <==> x in rows && TypeSelects(typ, x.application) && StatusSelects(status, x.application)
  {
    var byType :=
      if typ == Some("spontaneous") then Filter(rows, (x: AppWithJob) => x.application.isSpontaneous)
      else if typ == Some("job") then Filter(rows, (x: AppWithJob) => !x.application.isSpontaneous)
      else rows;
    if status.Some? && status.value != "" then
      Filter(byType, (x: AppWithJob) => AppStatusName(x.application.status) == status.value)
    else byType
  }

  /** The filter only deletes rows: what is left keeps the query's order. */
  lemma {:induction false} FilterApplicationsKeepsOrder(rows: seq<AppWithJob>, typ: Option<string>, status: Option<string>)
    ensures IsSubsequence(FilterApplications(rows, typ, status), rows)
  {
    var byType :=
      if typ == Some("spontaneous") then Filter(rows, (x: AppWithJob) => x.application.isSpontaneous)
      else if typ == Some("job") then Filter(rows, (x: AppWithJob) => !x.application.isSpontaneous)
      else rows;
    if typ == Some("spontaneous") {
      FilterIsSubsequence(rows, (x: AppWithJob) => x.application.isSpontaneous);
    } else if typ == Some("job") {
      FilterIsSubsequence(rows, (x: AppWithJob) => !x.application.isSpontaneous);
    } else {
      SubsequenceReflexive(rows);
    }
    if status.Some? && status.value != "" {
      FilterIsSubsequence(byType, (x: AppWithJob) => AppStatusName(x.application.status) == status.value);
      SubsequenceTransitive(FilterApplications(rows, typ, status), byType, rows);
    }
  }

  /** "spontaneous" and "job" split the list between them. */
  lemma TypeFiltersPartition(rows: seq<AppWithJob>)
    ensures |FilterApplications(rows, Some("spontaneous"), None)| + |FilterApplications(rows, Some("job"), None)| == |rows|
  {
    CountComplement(rows, (x: AppWithJob) => x.application.isSpontaneous, (x: AppWithJob) => !x.application.isSpontaneous);
  }

  function NewestFirst(x: AppWithJob): int { -(x.application.createdAt as int) }

  /** `GET /admin/applications?type=&status=`: the joined rows, newest
      application first, then filtered. */
  function ListApplications(apps: seq<Application>, jobs: seq<Job>, typ: Option<string>, status: Option<string>): (r: seq<AppWithJob>)
    ensures forall x :: x in r <==>
      x in LeftJoin(apps, jobs) && TypeSelects(typ, x.application) && StatusSelects(status, x.application)
    ensures forall i, k :: 0 <= i < k < |r| ==> r[i].application.createdAt >= r[k].application.createdAt
  {
    var joined := LeftJoin(apps, jobs);
    var ordered := SortBy(joined, NewestFirst);
    var r := FilterApplications(ordered, typ, status);
    FilterApplicationsKeepsOrder(ordered, typ, status);
    SubsequenceSorted(r, ordered, NewestFirst);
    assert forall x :: x in ordered <==> x in joined by {
      forall x ensures x in ordered <==> x in joined {
        SortByMembership(joined, NewestFirst, x);
      }
    }
    assert forall i, k :: 0 <= i < k < |r| ==> NewestFirst(r[i]) <= NewestFirst(r[k]);
    r
  }

  /** `GET /admin/applications/:id`: the joined row of that application. */
  function GetApplication(apps: seq<Application>, jobs: seq<Job>, id: string): (r: Option<AppWithJob>)
    ensures r.Some? ==> r.value.application in apps && r.value.application.id == id
    ensures r.Some? ==> r.value in LeftJoin(apps, jobs)
    ensures r.None? <==> forall a :: a in apps ==> a.id != id
  {
    var joined := LeftJoin(apps, jobs);
    match IndexWhere(joined, (x: AppWithJob) => x.application.id == id)
    case Some(i) => Some(joined[i])
    case None =>
      assert forall a :: a in apps ==> a.id != id by {
        forall a | a in apps ensures a.id != id {
          var i :| 0 <= i < |apps| && apps[i] == a;
          assert joined[i].application == a;
        }
      }
      None
  }

  // ---------------------------------------------------------------------
  // GET /admin/stats

  datatype StatusCounts = StatusCounts(pending: nat, reviewed: nat, shortlisted: nat, rejected: nat, hired: nat)

  datatype Stats = Stats(
    totalJobs: nat,
    openJobs: nat,
    closedJobs: nat,
    draftJobs: nat,
    totalApplications: nat,
    pendingApplications: nat,
    spontaneousApplications: nat,
    applicationsByStatus: StatusCounts)

  function JobsWithStatus(jobs: seq<Job>, s: JobStatus): nat
  {
    Count(jobs, (j: Job) => j.status == s)
  }

  function AppsWithStatus(apps: seq<Application>, s: AppStatus): nat
  {
    Count(apps, (a: Application) => a.status == s)
  }

  function SpontaneousCount(apps: seq<Application>): nat
  {
    Count(apps, (a: Application) => a.isSpontaneous)
  }

  /** Every job is open, closed or draft. */
  lemma {:induction false} JobStatusPartition(jobs: seq<Job>)
    ensures JobsWithStatus(jobs, Open) + JobsWithStatus(jobs, Closed) + JobsWithStatus(jobs, Draft) == |jobs|
  {
    if jobs != [] {
      JobStatusPartition(jobs[1..]);
    }
  }

  /** Every application has exactly one of the five statuses. */
  lemma {:induction false} AppStatusPartition(apps: seq<Application>)
    ensures AppsWithStatus(apps, Pending) + AppsWithStatus(apps, Reviewed) + AppsWithStatus(apps, Shortlisted)
            + AppsWithStatus(apps, Rejected) + AppsWithStatus(apps, Hired) == |apps|
  {
    if apps != [] {
      AppStatusPartition(apps[1..]);
    }
  }

  /** The aggregate of the dashboard, computed over the whole tables. */
  function ComputeStats(jobs: seq<Job>, apps: seq<Application>): (st: Stats)
    ensures st.totalJobs == |jobs| && st.totalApplications == |apps|
    ensures st.openJobs + st.closedJobs + st.draftJobs == st.totalJobs
    ensures var c := st.applicationsByStatus;
      c.pending + c.reviewed + c.shortlisted + c.rejected + c.hired == st.totalApplications
    ensures st.pendingApplications == st.applicationsByStatus.pending
    ensures st.spontaneousApplications <= st.totalApplications
  {
    JobStatusPartition(jobs);
    AppStatusPartition(apps);
    Stats(
      |jobs|,
      JobsWithStatus(jobs, Open),
      JobsWithStatus(jobs, Closed),
      JobsWithStatus(jobs, Draft),
      |apps|,
      AppsWithStatus(apps, Pending),
      SpontaneousCount(apps),
      StatusCounts(
        AppsWithStatus(apps, Pending),
        AppsWithStatus(apps, Reviewed),
        AppsWithStatus(apps, Shortlisted),
        AppsWithStatus(apps, Rejected),
        AppsWithStatus(apps, Hired)))
  }

  lemma StatsOfEmptyTables()
    ensures ComputeStats([], []) == Stats(0, 0, 0, 0, 0, 0, 0, StatusCounts(0, 0, 0, 0, 0))
  {
  }

  /** Spontaneous applications and applications to a job add up to the total. */
  lemma SpontaneousComplement(apps: seq<Application>)
    ensures ComputeStats([], apps).spontaneousApplications + Count(apps, (a: Application) => !a.isSpontaneous) == |apps|
  {
    CountComplement(apps, (a: Application) => a.isSpontaneous, (a: Application) => !a.isSpontaneous);
  }

  /** Appending a job adds one to the count of its own status only. */
  lemma JobsWithStatusAppend(jobs: seq<Job>, j: Job, s: JobStatus)
    ensures JobsWithStatus(jobs + [j], s) == JobsWithStatus(jobs, s) + (if j.status == s then 1 else 0)
  {
    FilterAppend(jobs, [j], (x: Job) => x.status == s);
  }

  /** Appending an application adds one to the count of its own status only. */
  lemma AppsWithStatusAppend(apps: seq<Application>, a: Application, s: AppStatus)
    ensures AppsWithStatus(apps + [a], s) == AppsWithStatus(apps, s) + (if a.status == s then 1 else 0)
  {
    FilterAppend(apps, [a], (x: Application) => x.status == s);
  }

  /** Adding one open job and one hired application to a job moves exactly
      openJobs, totalJobs, totalApplications and the hired count, by one each. */
  lemma StatsAfterOpenJobAndHiredApplication(jobs: seq<Job>, apps: seq<Application>, j: Job, a: Application)
    requires j.status == Open && a.status == Hired && !a.isSpontaneous
    ensures var before := ComputeStats(jobs, apps);
      ComputeStats(jobs + [j], apps + [a]) ==
        before.(totalJobs := before.totalJobs + 1,
                openJobs := before.openJobs + 1,
                totalApplications := before.totalApplications + 1,
                applicationsByStatus := before.applicationsByStatus.(hired := before.applicationsByStatus.hired + 1))
  {
    JobsWithStatusAppend(jobs, j, Open);
    JobsWithStatusAppend(jobs, j, Closed);
    JobsWithStatusAppend(jobs, j, Draft);
    AppsWithStatusAppend(apps, a, Pending);
    AppsWithStatusAppend(apps, a, Reviewed);
    AppsWithStatusAppend(apps, a, Shortlisted);
    AppsWithStatusAppend(apps, a, Rejected);
    AppsWithStatusAppend(apps, a, Hired);
    FilterAppend(apps, [a], (x: Application) => x.isSpontaneous);
  }
}
