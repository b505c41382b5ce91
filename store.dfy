/** The job board's state as the backend changes it: the two tables, the
    directory of stored résumés, and a clock standing in for `new Date()`.
    Each handler that writes is one atomic method of `JobBoard`. */
module Store {
  import opened Outcomes
  import opened Lists
  import opened Schema
  import opened Admin
  import opened Submission

  /** The résumé URL of `a` is what the `resume_url` column keeps of the URL
      of a file in the upload directory. */
  predicate ResumeStored(a: Application, files: set<string>)
  {
    exists f :: f in files && a.resumeUrl == Varchar(ResumeUrlPrefix + f, 500)
  }

  /** `ON DELETE SET NULL` on `applications.job_id`: the applications of job
      `id` lose their reference and nothing else about them changes. */
  function DetachJob(apps: seq<Application>, id: string): (r: seq<Application>)
    ensures |r| == |apps|
    ensures forall i :: 0 <= i < |r| ==>
      && r[i] == apps[i].(jobId := r[i].jobId)
      && (r[i].jobId.None? <==> apps[i].jobId.None? || apps[i].jobId == Some(id))
      && (r[i].jobId.Some? ==> r[i].jobId == apps[i].jobId)
  {
    seq(|apps|, i requires 0 <= i < |apps| =>
      if apps[i].jobId == Some(id) then apps[i].(jobId := None) else apps[i])
  }

  /** PATCH's merge: the status when a non-empty status is supplied, the
      notes whenever the body has the property (null clears them), and
      always a fresh `updatedAt`. */
  function ApplyReview(a: Application, status: Field, notes: Field, now: nat): (r: Application)
    requires status.Value? && status.text != "" ==> ParseAppStatus(status.text).Some?
    ensures r == a.(status := r.status, notes := r.notes, updatedAt := now)
    ensures if status.Value? && status.text != "" then AppStatusName(r.status) == status.text else r.status == a.status
    ensures notes.Absent? ==> r.notes == a.notes
    ensures notes.Null? ==> r.notes.None?
    ensures notes.Value? ==> r.notes == Some(notes.text)
  {
    a.(status := if status.Value? && status.text != "" then ParseAppStatus(status.text).value else a.status,
       notes := SetNullable(a.notes, notes),
       updatedAt := now)
  }


  /** `DELETE FROM jobs WHERE id = ?`: every row but the ones with that id. */
  function WithoutJob(jobs: seq<Job>, id: string): (r: seq<Job>)
    ensures forall j :: j in r <==> j in jobs && j.id != id
    ensures IsSubsequence(r, jobs)
    ensures JobIdsUnique(jobs) ==> JobIdsUnique(r)
    ensures JobIdsUnique(jobs) && HasJob(jobs, id) ==> |r| == |jobs| - 1
    ensures !HasJob(jobs, id) ==> r == jobs
  {
    var keep := (j: Job) => j.id != id;
    FilterIsSubsequence(jobs, keep);
    assert JobIdsUnique(jobs) ==> JobIdsUnique(Filter(jobs, keep)) && (HasJob(jobs, id) ==> |Filter(jobs, keep)| == |jobs| - 1) by {
      if JobIdsUnique(jobs) {
        assert UniqueBy(jobs, JobId);
        FilterUnique(jobs, keep, JobId);
        if HasJob(jobs, id) {
          var w :| w in jobs && w.id == id;
          var i :| 0 <= i < |jobs| && jobs[i] == w;
          FilterDropsOneKey(jobs, keep, JobId, id, i);
        }
      }
    }
    assert !HasJob(jobs, id) ==> Filter(jobs, keep) == jobs by {
      if !HasJob(jobs, id) {
        FilterAll(jobs, keep);
      }
    }
    Filter(jobs, keep)
  }

  /** `DELETE FROM applications WHERE id = ?`. */
  function WithoutApplication(apps: seq<Application>, id: string): (r: seq<Application>)
    ensures forall a :: a in r <==> a in apps && a.id != id
    ensures IsSubsequence(r, apps)
    ensures ApplicationIdsUnique(apps) ==> ApplicationIdsUnique(r)
    ensures ApplicationIdsUnique(apps) && HasApplication(apps, id) ==> |r| == |apps| - 1
    ensures !HasApplication(apps, id) ==> r == apps
  {
    var keep := (a: Application) => a.id != id;
    FilterIsSubsequence(apps, keep);
    assert ApplicationIdsUnique(apps) ==> ApplicationIdsUnique(Filter(apps, keep)) && (HasApplication(apps, id) ==> |Filter(apps, keep)| == |apps| - 1) by {
      if ApplicationIdsUnique(apps) {
        assert UniqueBy(apps, ApplicationId);
        FilterUnique(apps, keep, ApplicationId);
        if HasApplication(apps, id) {
          var w :| w in apps && w.id == id;
          var i :| 0 <= i < |apps| && apps[i] == w;
          FilterDropsOneKey(apps, keep, ApplicationId, id, i);
        }
      }
    }
    assert !HasApplication(apps, id) ==> Filter(apps, keep) == apps by {
      if !HasApplication(apps, id) {
        FilterAll(apps, keep);
      }
    }
    Filter(apps, keep)
  }

  /** What the database and the upload directory guarantee together: primary
      keys, column bounds, timestamps no later than the clock, the foreign
      key `applications.job_id -> jobs.id`, the spontaneous rule, and a stored
      résumé behind every application. */
  ghost predicate BoardInvariant(jobs: seq<Job>, apps: seq<Application>, files: set<string>, clock: nat)
  {
    && JobIdsUnique(jobs)
    && ApplicationIdsUnique(apps)
    && (forall j :: j in jobs ==> JobFitsColumns(j) && j.createdAt <= j.updatedAt <= clock)
    && (forall a :: a in apps ==> ApplicationFitsColumns(a) && a.createdAt <= a.updatedAt <= clock)
    && (forall a :: a in apps && a.jobId.Some? ==> HasJob(jobs, a.jobId.value))
    && (forall a :: a in apps && a.isSpontaneous ==> a.jobId.None?)
    && (forall a :: a in apps ==> ResumeStored(a, files))
  }

  /** Deleting a job together with `ON DELETE SET NULL` keeps the foreign key:
      no application is left pointing at the deleted row. */
  lemma DeleteJobKeepsInvariant(jobs: seq<Job>, apps: seq<Application>, files: set<string>, clock: nat, id: string)
    requires BoardInvariant(jobs, apps, files, clock)
    ensures BoardInvariant(WithoutJob(jobs, id), DetachJob(apps, id), files, clock)
    ensures forall a :: a in DetachJob(apps, id) ==> a.jobId != Some(id)
  {
    var js := WithoutJob(jobs, id);
    var r := DetachJob(apps, id);
    forall i, k | 0 <= i < k < |r| ensures r[i].id != r[k].id {
      assert r[i].id == apps[i].id && r[k].id == apps[k].id;
    }
    forall a | a in r
      ensures ApplicationFitsColumns(a) && a.createdAt <= a.updatedAt <= clock
      ensures a.jobId.Some? ==> HasJob(js, a.jobId.value) && a.jobId != Some(id)
      ensures a.isSpontaneous ==> a.jobId.None?
      ensures ResumeStored(a, files)
    {
      var i :| 0 <= i < |r| && r[i] == a;
      assert apps[i] in apps;
      if a.jobId.Some? {
        var w :| w in jobs && w.id == a.jobId.value;
        assert w in js;
      }
    }
  }

  /** A review stamped with the next tick keeps every guarantee. */
  lemma ReviewKeepsInvariant(jobs: seq<Job>, apps: seq<Application>, files: set<string>, clock: nat, k: nat, status: Field, notes: Field)
    requires BoardInvariant(jobs, apps, files, clock) && k < |apps|
    requires status.Value? && status.text != "" ==> ParseAppStatus(status.text).Some?
    ensures BoardInvariant(jobs, apps[k := ApplyReview(apps[k], status, notes, clock + 1)], files, clock + 1)
  {
    var r := apps[k := ApplyReview(apps[k], status, notes, clock + 1)];
    forall i, m | 0 <= i < m < |r| ensures r[i].id != r[m].id {
      assert r[i].id == apps[i].id && r[m].id == apps[m].id;
    }
    forall a | a in r
      ensures ApplicationFitsColumns(a) && a.createdAt <= a.updatedAt <= clock + 1
      ensures a.jobId.Some? ==> HasJob(jobs, a.jobId.value)
      ensures a.isSpontaneous ==> a.jobId.None?
      ensures ResumeStored(a, files)
    {
      var i :| 0 <= i < |r| && r[i] == a;
      assert apps[i] in apps;
    }
  }

  /** Appending a fitting job with a fresh id, stamped with the next tick,
      keeps every guarantee. */
  lemma InsertKeepsInvariant(jobs: seq<Job>, apps: seq<Application>, files: set<string>, clock: nat, j: Job)
    requires BoardInvariant(jobs, apps, files, clock)
    requires !HasJob(jobs, j.id) && JobFitsColumns(j) && j.createdAt == j.updatedAt == clock + 1
    ensures BoardInvariant(jobs + [j], apps, files, clock + 1)
  {
    var r := jobs + [j];
    forall i, m | 0 <= i < m < |r| ensures r[i].id != r[m].id {
      if m == |jobs| {
        assert r[i] in jobs;
      } else {
        assert r[i] == jobs[i] && r[m] == jobs[m];
      }
    }
    forall a | a in apps && a.jobId.Some? ensures HasJob(r, a.jobId.value) {
      var w :| w in jobs && w.id == a.jobId.value;
      assert w in r;
    }
  }

  /** Replacing the k-th job by a merge of it, which keeps its id and
      creation time, stamped with the next tick, keeps every guarantee. */
  lemma MergeKeepsInvariant(jobs: seq<Job>, apps: seq<Application>, files: set<string>, clock: nat, k: nat, merged: Job)
    requires BoardInvariant(jobs, apps, files, clock) && k < |jobs|
    requires merged.id == jobs[k].id && JobFitsColumns(merged)
    requires merged.createdAt == jobs[k].createdAt && merged.updatedAt == clock + 1
    ensures BoardInvariant(jobs[k := merged], apps, files, clock + 1)
  {
    var r := jobs[k := merged];
    forall i, m | 0 <= i < m < |r| ensures r[i].id != r[m].id {
      assert r[i].id == jobs[i].id && r[m].id == jobs[m].id;
    }
    forall j | j in r ensures JobFitsColumns(j) && j.createdAt <= j.updatedAt <= clock + 1 {
      var i :| 0 <= i < |r| && r[i] == j;
      assert jobs[i] in jobs;
    }
    forall a | a in apps && a.jobId.Some? ensures HasJob(r, a.jobId.value) {
      var w :| w in jobs && w.id == a.jobId.value;
      var m :| 0 <= m < |jobs| && jobs[m] == w;
      assert r[m].id == w.id && r[m] in r;
    }
  }

  /** Appending a well-formed application whose résumé was just stored keeps
      every guarantee. */
  lemma SubmitKeepsInvariant(jobs: seq<Job>, apps: seq<Application>, files: set<string>, clock: nat, stored: string, a: Application)
    requires BoardInvariant(jobs, apps, files, clock)
    requires !HasApplication(apps, a.id)
    requires ApplicationFitsColumns(a) && a.createdAt == a.updatedAt == clock + 1
    requires a.jobId.Some? ==> HasJob(jobs, a.jobId.value)
    requires a.isSpontaneous ==> a.jobId.None?
    requires a.resumeUrl == Varchar(ResumeUrlPrefix + stored, 500)
    ensures BoardInvariant(jobs, apps + [a], files + {stored}, clock + 1)
  {
    var r := apps + [a];
    forall i, m | 0 <= i < m < |r| ensures r[i].id != r[m].id {
      if m == |apps| {
        assert r[i] in apps;
      } else {
        assert r[i] == apps[i] && r[m] == apps[m];
      }
    }
    forall b | b in r ensures ResumeStored(b, files + {stored}) {
      if b == a {
        assert stored in files + {stored};
      } else {
        var f :| f in files && b.resumeUrl == Varchar(ResumeUrlPrefix + f, 500);
        assert f in files + {stored};
      }
    }
  }

  /** Everything the handlers change: the two tables, the names in the
      résumé upload directory, and the last timestamp handed out. */
  datatype BoardState = BoardState(jobs: seq<Job>, applications: seq<Application>, resumeFiles: set<string>, clock: nat)

  datatype AdminRequest =
    | ListJobs
    | CreateJobRequest(input: JobInput, newId: string)
    | UpdateJobRequest(id: string, input: JobInput)
    | DeleteJobRequest(id: string)
    | ListApplicationsRequest(typeFilter: Option<string>, statusFilter: Option<string>)
    | GetApplicationRequest(id: string)
    | PatchApplicationRequest(id: string, status: Field, notes: Field)
    | DeleteApplicationRequest(id: string)
    | StatsRequest

  datatype AdminBody =
    | JobList(jobList: seq<Job>)
    | OneJob(job: Job)
    | Rows(rows: seq<AppWithJob>)
    | OneRow(row: AppWithJob)
    | OneApplication(application: Application)
    | Message(text: string)
    | StatsBody(stats: Stats)


  class JobBoard {
    var state: BoardState

    ghost predicate Valid()
      reads this
    {
      BoardInvariant(state.jobs, state.applications, state.resumeFiles, state.clock)
    }

    constructor ()
      ensures Valid()
      ensures state == BoardState([], [], {}, 0)
    {
      state := BoardState([], [], {}, 0);
    }

    /** `POST /admin/jobs`. A duplicate generated id is a primary-key
        violation and ends in 500 like any other database error. */
    method CreateJob(input: JobInput, newId: string) returns (res: Reply<Job>)
      requires Valid()
      modifies this
      ensures Valid()
      ensures res.Done? <==> InsertJob(input, newId, old(state.clock) + 1).Some? && !HasJob(old(state.jobs), newId)
      ensures res.Done? ==>
        && res.value == InsertJob(input, newId, old(state.clock) + 1).value
        && state == old(state).(jobs := old(state.jobs) + [res.value], clock := old(state.clock) + 1)
      ensures res.Failed? ==> res.failure == Internal && state == old(state)
    {
      var row := InsertJob(input, newId, state.clock + 1);
      if row.None? || JobById(state.jobs, newId).Some? {
        res := Failed(Internal);
      } else {
        InsertKeepsInvariant(state.jobs, state.applications, state.resumeFiles, state.clock, row.value);
        state := state.(jobs := state.jobs + [row.value], clock := state.clock + 1);
        res := Done(row.value);
      }
    }

    /** `PUT /admin/jobs/:id`: merges the body into the row and refreshes
        `updatedAt`. */
    method UpdateJob(id: string, input: JobInput) returns (res: Reply<Job>)
      requires Valid()
      modifies this
      ensures Valid()
      ensures state.applications == old(state.applications) && state.resumeFiles == old(state.resumeFiles)
      ensures !EnumLiteralsValid(input) ==> res == Failed(Internal)
      ensures EnumLiteralsValid(input) && !HasJob(old(state.jobs), id) ==> res == Failed(NotFound)
      ensures res.Done? <==>
        && EnumLiteralsValid(input)
        && HasJob(old(state.jobs), id)
        && MergeJob(JobById(old(state.jobs), id).value, input, old(state.clock) + 1).Some?
      ensures EnumLiteralsValid(input) && HasJob(old(state.jobs), id) && res.Failed? ==> res.failure == Internal
      ensures res.Failed? ==> state == old(state)
      ensures res.Done? ==>
        && JobById(old(state.jobs), id).Some?
        && MergeJob(JobById(old(state.jobs), id).value, input, old(state.clock) + 1) == Some(res.value)
        && state.clock == old(state.clock) + 1
        && |state.jobs| == |old(state.jobs)|
        && forall k :: 0 <= k < |state.jobs| ==> state.jobs[k] == if old(state.jobs)[k].id == id then res.value else old(state.jobs)[k]
    {
      if !EnumLiteralsValid(input) {
        res := Failed(Internal);
      } else {
        var i := JobIndex(state.jobs, id);
        if i.None? {
          res := Failed(NotFound);
        } else {
          var k := i.value;
          JobByIdFindsTheRow(state.jobs, k);
          var merged := MergeJob(state.jobs[k], input, state.clock + 1);
          if merged.None? {
            res := Failed(Internal);
          } else {
            MergeKeepsInvariant(state.jobs, state.applications, state.resumeFiles, state.clock, k, merged.value);
            state := state.(jobs := state.jobs[k := merged.value], clock := state.clock + 1);
            res := Done(merged.value);
          }
        }
      }
    }

    /** `DELETE /admin/jobs/:id`, with the database's `ON DELETE SET NULL`. */
    method DeleteJob(id: string) returns (res: Reply<string>)
      requires Valid()
      modifies this
      ensures Valid()
      ensures res.Done? <==> HasJob(old(state.jobs), id)
      ensures res.Failed? ==> res.failure == NotFound && state == old(state)
      ensures res.Done? ==>
        && res.value == "Job deleted successfully"
        && state == old(state).(jobs := WithoutJob(old(state.jobs), id), applications := DetachJob(old(state.applications), id))
        && |state.jobs| == |old(state.jobs)| - 1
        && !HasJob(state.jobs, id)
    {
      if JobById(state.jobs, id).None? {
        return Failed(NotFound);
      }
      DeleteJobKeepsInvariant(state.jobs, state.applications, state.resumeFiles, state.clock, id);
      state := state.(jobs := WithoutJob(state.jobs, id), applications := DetachJob(state.applications, id));
      res := Done("Job deleted successfully");
    }

    /** `PATCH /admin/applications/:id`: an empty or missing field leaves
        that column alone; a status that is not an `application_status` is
        rejected by the database (500) before the row is looked up. */
    method PatchApplication(id: string, status: Field, notes: Field) returns (res: Reply<Application>)
      requires Valid()
      modifies this
      ensures Valid()
      ensures state.jobs == old(state.jobs) && state.resumeFiles == old(state.resumeFiles)
      ensures res.Done? <==>
        (status.Value? && status.text != "" ==> ParseAppStatus(status.text).Some?) && HasApplication(old(state.applications), id)
      ensures status.Value? && status.text != "" && ParseAppStatus(status.text).None? ==> res == Failed(Internal)
      ensures (status.Value? && status.text != "" ==> ParseAppStatus(status.text).Some?) && !HasApplication(old(state.applications), id) ==>
        res == Failed(NotFound)
      ensures res.Failed? ==> res.failure in {Internal, NotFound} && state == old(state)
      ensures res.Done? ==>
        && ApplicationById(old(state.applications), id).Some?
        && res.value == ApplyReview(ApplicationById(old(state.applications), id).value, status, notes, old(state.clock) + 1)
        && state.clock == old(state.clock) + 1
        && |state.applications| == |old(state.applications)|
        && forall k :: 0 <= k < |state.applications| ==>
             state.applications[k] == if old(state.applications)[k].id == id then res.value else old(state.applications)[k]
    {
      if status.Value? && status.text != "" && ParseAppStatus(status.text).None? {
        res := Failed(Internal);
      } else {
        var i := ApplicationIndex(state.applications, id);
        if i.None? {
          res := Failed(NotFound);
        } else {
          var k := i.value;
          ApplicationByIdFindsTheRow(state.applications, k);
          var row := ApplyReview(state.applications[k], status, notes, state.clock + 1);
          ReviewKeepsInvariant(state.jobs, state.applications, state.resumeFiles, state.clock, k, status, notes);
          state := state.(applications := state.applications[k := row], clock := state.clock + 1);
          res := Done(row);
        }
      }
    }

    /** `DELETE /admin/applications/:id`; the résumé file stays on disk. */
    method DeleteApplication(id: string) returns (res: Reply<string>)
      requires Valid()
      modifies this
      ensures Valid()
      ensures res.Done? <==> HasApplication(old(state.applications), id)
      ensures res.Failed? ==> res.failure == NotFound && state == old(state)
      ensures res.Done? ==>
        && res.value == "Application deleted successfully"
        && state == old(state).(applications := WithoutApplication(old(state.applications), id))
        && |state.applications| == |old(state.applications)| - 1
    {
      if ApplicationById(state.applications, id).None? {
        return Failed(NotFound);
      }
      state := state.(applications := WithoutApplication(state.applications, id));
      res := Done("Application deleted successfully");
    }

    /** `POST /applications`. `uuid` is the name multer's storage draws for
        the file and `newId` the id the database generates; `insertFails`
        stands for any other error the insert raises. A file stored before a
        failure is unlinked again. The uuid is fresh: its file name is not
        in the directory yet (were it, multer would overwrite that file and
        a failure would then unlink it). */
    method SubmitApplication(form: ApplicationForm, upload: Option<Upload>, uuid: string, newId: string, insertFails: bool)
      returns (res: Reply<Application>)
      requires Valid()
      requires upload.Some? ==> StoredFilename(uuid, upload.value.originalName) !in state.resumeFiles
      modifies this
      ensures Valid()
      ensures res.Failed? ==> state == old(state)
      ensures upload.None? ==> res == Failed(BadRequest("Resume file is required"))
      ensures upload.Some? && CheckUpload(upload.value) == NotPdf ==> res == Failed(BadRequest("Only PDF files are allowed"))
      ensures upload.Some? && CheckUpload(upload.value) == TooLarge ==> res == Failed(Internal)
      ensures upload.Some? && CheckUpload(upload.value) == Accepted && !IsSpontaneous(form.jobId) && !HasJob(old(state.jobs), form.jobId.value) ==>
        res == Failed(NotFound)
      ensures upload.Some? && CheckUpload(upload.value) == Accepted && (IsSpontaneous(form.jobId) || HasJob(old(state.jobs), form.jobId.value)) && res.Failed? ==>
        res.failure == Internal
      ensures res.Done? <==>
        && upload.Some? && CheckUpload(upload.value) == Accepted
        && (IsSpontaneous(form.jobId) || HasJob(old(state.jobs), form.jobId.value))
        && BuildApplication(form, upload.value, StoredFilename(uuid, upload.value.originalName), newId, old(state.clock) + 1).Some?
        && !HasApplication(old(state.applications), newId)
        && !insertFails
      ensures res.Done? ==>
        var stored := StoredFilename(uuid, upload.value.originalName);
        && Some(res.value) == BuildApplication(form, upload.value, stored, newId, old(state.clock) + 1)
        && state == old(state).(applications := old(state.applications) + [res.value],
                                resumeFiles := old(state.resumeFiles) + {stored},
                                clock := old(state.clock) + 1)
    {
      if upload.None? {
        res := Failed(BadRequest("Resume file is required"));
      } else if CheckUpload(upload.value) == NotPdf {
        res := Failed(BadRequest("Only PDF files are allowed"));
      } else if CheckUpload(upload.value) == TooLarge {
        res := Failed(Internal);
      } else if !IsSpontaneous(form.jobId) && JobById(state.jobs, form.jobId.value).None? {
        // multer has written the file by now; this and every later failure
        // unlink it again, so the directory changes only when the insert
        // succeeds.
        res := Failed(NotFound);
      } else {
        var stored := StoredFilename(uuid, upload.value.originalName);
        var row := BuildApplication(form, upload.value, stored, newId, state.clock + 1);
        if row.None? || ApplicationById(state.applications, newId).Some? || insertFails {
          res := Failed(Internal);
        } else {
          SubmitKeepsInvariant(state.jobs, state.applications, state.resumeFiles, state.clock, stored, row.value);
          state := state.(applications := state.applications + [row.value], resumeFiles := state.resumeFiles + {stored}, clock := state.clock + 1);
          res := Done(row.value);
        }
      }
    }

    /** The `/admin` router: `adminAuth` in front of every route, then the
        route's handler. */
    method HandleAdmin(authorization: Option<string>, request: AdminRequest) returns (res: Reply<AdminBody>)
      requires Valid()
      modifies this
      ensures Valid()
      ensures !AdminAuth(authorization) ==> res == Failed(Unauthorized) && state == old(state)
      ensures request.ListJobs? || request.ListApplicationsRequest? || request.GetApplicationRequest? || request.StatsRequest? ==>
        state == old(state)
      ensures AdminAuth(authorization) && request.ListJobs? ==> res == Done(JobList(AdminListJobs(state.jobs)))
      ensures AdminAuth(authorization) && request.ListApplicationsRequest? ==>
        res == Done(Rows(ListApplications(state.applications, state.jobs, request.typeFilter, request.statusFilter)))
      ensures AdminAuth(authorization) && request.GetApplicationRequest? ==>
        res == match GetApplication(state.applications, state.jobs, request.id)
               case Some(row) => Done(OneRow(row))
               case None => Failed(NotFound)
      ensures AdminAuth(authorization) && request.StatsRequest? ==> res == Done(StatsBody(ComputeStats(state.jobs, state.applications)))
      ensures state.resumeFiles == old(state.resumeFiles)
    {
      if !AdminAuth(authorization) {
        return Failed(Unauthorized);
      }
      match request
      case ListJobs =>
        res := Done(JobList(AdminListJobs(state.jobs)));
      case CreateJobRequest(input, newId) =>
        var r := CreateJob(input, newId);
        res := if r.Done? then Done(OneJob(r.value)) else Failed(r.failure);
      case UpdateJobRequest(id, input) =>
        var r := UpdateJob(id, input);
        res := if r.Done? then Done(OneJob(r.value)) else Failed(r.failure);
      case DeleteJobRequest(id) =>
        var r := DeleteJob(id);
        res := if r.Done? then Done(Message(r.value)) else Failed(r.failure);
      case ListApplicationsRequest(typeFilter, statusFilter) =>
        res := Done(Rows(ListApplications(state.applications, state.jobs, typeFilter, statusFilter)));
      case GetApplicationRequest(id) =>
        var row := GetApplication(state.applications, state.jobs, id);
        res := if row.Some? then Done(OneRow(row.value)) else Failed(NotFound);
      case PatchApplicationRequest(id, status, notes) =>
        var r := PatchApplication(id, status, notes);
        res := if r.Done? then Done(OneApplication(r.value)) else Failed(r.failure);
      case DeleteApplicationRequest(id) =>
        var r := DeleteApplication(id);
        res := if r.Done? then Done(Message(r.value)) else Failed(r.failure);
      case StatsRequest =>
        res := Done(StatsBody(ComputeStats(state.jobs, state.applications)));
    }
  }
}
