/** The admin jobs page: the list of jobs kept in the page's state, the
    modal form for creating or editing a job, and the handlers that update
    the list after the server has answered. */
module JobsPage {
  import opened Outcomes
  import opened Lists
  import opened Schema
  import Store

  // ---------------------------------------------------------------------
  // The form

  /** `formData`: every control holds a string; `jobType` is the control
      named "type". */
  datatype JobForm = JobForm(
    title: string,
    department: string,
    location: string,
    jobType: string,
    description: string,
    requirements: string,
    benefits: string,
    salary: string,
    status: string)

  /** The form of a new job: empty text, type "full-time", status "draft". */
  const EmptyForm: JobForm := JobForm("", "", "", "full-time", "", "", "", "", "draft")

  /** The `name` attributes of the form's controls. */
  datatype FormField = Title | Department | Location | Type | Description | Requirements | Benefits | Salary | Status

  function Get(form: JobForm, field: FormField): string
  {
    match field
    case Title => form.title
    case Department => form.department
    case Location => form.location
    case Type => form.jobType
    case Description => form.description
    case Requirements => form.requirements
    case Benefits => form.benefits
    case Salary => form.salary
    case Status => form.status
  }

  /** `{ ...prev, [name]: value }`: the named control takes the value and
      every other control keeps its own. */
  function SetField(form: JobForm, field: FormField, value: string): (r: JobForm)
    ensures Get(r, field) == value
    ensures forall g :: g != field ==> Get(r, g) == Get(form, g)
  {
    match field
    case Title => form.(title := value)
    case Department => form.(department := value)
    case Location => form.(location := value)
    case Type => form.(jobType := value)
    case Description => form.(description := value)
    case Requirements => form.(requirements := value)
    case Benefits => form.(benefits := value)
    case Salary => form.(salary := value)
    case Status => form.(status := value)
  }

  /** Two forms that agree on every control are the same form. */
  lemma FormsAgreeingEverywhereAreEqual(a: JobForm, b: JobForm)
    requires forall g :: Get(a, g) == Get(b, g)
    ensures a == b
  {
    assert Get(a, Title) == Get(b, Title) && Get(a, Department) == Get(b, Department);
    assert Get(a, Location) == Get(b, Location) && Get(a, Type) == Get(b, Type);
    assert Get(a, Description) == Get(b, Description) && Get(a, Requirements) == Get(b, Requirements);
    assert Get(a, Benefits) == Get(b, Benefits) && Get(a, Salary) == Get(b, Salary);
    assert Get(a, Status) == Get(b, Status);
  }

  /** Typing the value a control already holds leaves the form as it is. */
  lemma SetFieldToItsValue(form: JobForm, field: FormField)
    ensures SetField(form, field, Get(form, field)) == form
  {
    FormsAgreeingEverywhereAreEqual(SetField(form, field, Get(form, field)), form);
  }

  /** `job.requirements || ''`. */
  function OrEmpty(o: Option<string>): (s: string)
    ensures o.Some? ==> s == o.value
    ensures o.None? ==> s == ""
  {
    if o.Some? then o.value else ""
  }

  /** The edit form filled from a job: the selects read back as the job's
      type and status, and the text controls hold the job's texts. */
  function Prefill(job: Job): (f: JobForm)
    ensures ParseJobType(f.jobType) == Some(job.jobType) && ParseJobStatus(f.status) == Some(job.status)
    ensures f.title == job.title && f.department == job.department && f.location == job.location
    ensures f.description == job.description
  {
    EnumNamesRoundTrip(job.jobType, job.status, Pending);
    JobForm(job.title, job.department, job.location, JobTypeName(job.jobType), job.description,
            OrEmpty(job.requirements), OrEmpty(job.benefits), OrEmpty(job.salary), JobStatusName(job.status))
  }

  /** The JSON body `createJob`/`updateJob` send: every control, as a string. */
  function FormBody(form: JobForm): JobInput
  {
    JobInput(Value(form.title), Value(form.department), Value(form.location), Value(form.jobType),
             Value(form.description), Value(form.requirements), Value(form.benefits), Value(form.salary),
             Value(form.status))
  }

  /** A form is accepted by `POST /admin/jobs` exactly when its type and
      status are enum literals and no text overflows its column. The stored
      row keeps every control as its column keeps it, with the empty
      optional texts stored as ""; a form whose texts fit comes back as it
      was sent. */
  lemma CreateFromForm(form: JobForm, id: string, now: nat)
    ensures InsertJob(FormBody(form), id, now).Some? <==>
      && ParseJobType(form.jobType).Some? && ParseJobStatus(form.status).Some?
      && !Overflows(form.title, 255) && !Overflows(form.department, 100)
      && !Overflows(form.location, 255) && !Overflows(form.salary, 100)
    ensures InsertJob(FormBody(form), id, now).Some? ==>
      var j := InsertJob(FormBody(form), id, now).value;
      && Prefill(j) == form.(title := Varchar(form.title, 255), department := Varchar(form.department, 100),
                             location := Varchar(form.location, 255), salary := Varchar(form.salary, 100))
      && j.requirements == Some(form.requirements) && j.benefits == Some(form.benefits)
      && j.salary == Some(Varchar(form.salary, 100))
    ensures
      && InsertJob(FormBody(form), id, now).Some?
      && |form.title| <= 255 && |form.department| <= 100 && |form.location| <= 255 && |form.salary| <= 100
      ==> Prefill(InsertJob(FormBody(form), id, now).value) == form
  {
  }

  /** The new-job form creates a draft of a full-time job, where a body
      without a status would create an open one. */
  lemma NewFormCreatesDraft(form: JobForm, id: string, now: nat)
    requires form.jobType == EmptyForm.jobType && form.status == EmptyForm.status
    requires InsertJob(FormBody(form), id, now).Some?
    ensures InsertJob(FormBody(form), id, now).value.status == Draft
    ensures InsertJob(FormBody(form), id, now).value.jobType == FullTime
    ensures DefaultJobStatus == Open
  {
  }

  /** Saving the edit form without touching it changes only the timestamp,
      except that a null optional text comes back as "". */
  lemma SavingUntouchedPrefill(job: Job, now: nat)
    requires JobFitsColumns(job)
    ensures MergeJob(job, FormBody(Prefill(job)), now) ==
      Some(job.(requirements := Some(OrEmpty(job.requirements)),
                benefits := Some(OrEmpty(job.benefits)),
                salary := Some(OrEmpty(job.salary)),
                updatedAt := now))
  {
    EnumNamesRoundTrip(job.jobType, job.status, Pending);
  }

  // ---------------------------------------------------------------------
  // The status toggle

  /** `job.status === 'open' ? 'closed' : 'open'`. */
  function Toggled(s: JobStatus): (r: JobStatus)
    ensures r != Draft
    ensures r == Closed <==> s == Open
  {
    if s == Open then Closed else Open
  }

  /** Toggling twice gives back an open or closed status; a draft, once
      toggled, never comes back. */
  lemma ToggleTwice(s: JobStatus)
    ensures s != Draft ==> Toggled(Toggled(s)) == s
    ensures s == Draft ==> Toggled(s) == Open && Toggled(Toggled(s)) == Closed
  {
  }

  /** The body `{ status: newStatus }`: it supplies only a status, which
      reads back as the toggled one, so the update cannot be refused. */
  function ToggleBody(job: Job): (body: JobInput)
    ensures body.status.Value? && ParseJobStatus(body.status.text) == Some(Toggled(job.status))
    ensures body.title.Absent? && body.department.Absent? && body.location.Absent? && body.jobType.Absent?
    ensures !NullsRequired(body) && EnumLiteralsValid(body) && !ExceedsColumn(body)
  {
    EnumNamesRoundTrip(FullTime, Toggled(job.status), Pending);
    JobInput(Absent, Absent, Absent, Absent, Absent, Absent, Absent, Absent, Value(JobStatusName(Toggled(job.status))))
  }

  /** The server's answer to the toggle: the same job with the toggled
      status and a fresh timestamp. */
  lemma ToggleOnServer(job: Job, now: nat)
    requires JobFitsColumns(job)
    ensures MergeJob(job, ToggleBody(job), now) == Some(job.(status := Toggled(job.status), updatedAt := now))
  {
    EnumNamesRoundTrip(FullTime, Toggled(job.status), Pending);
  }

  // ---------------------------------------------------------------------
  // Updates of `jobsList`

  /** `prev.map(j => j.id === updated.id ? updated : j)`. */
  function ReplaceById(list: seq<Job>, updated: Job): (r: seq<Job>)
    ensures |r| == |list|
  {
    seq(|list|, i requires 0 <= i < |list| => if list[i].id == updated.id then updated else list[i])
  }

  /** Replacing keeps every id in its place, so it keeps ids unique; the
      reply is listed afterwards iff its id was listed before. */
  lemma ReplaceByIdKeepsIds(list: seq<Job>, updated: Job)
    ensures forall i :: 0 <= i < |list| ==> ReplaceById(list, updated)[i].id == list[i].id
    ensures JobIdsUnique(list) ==> JobIdsUnique(ReplaceById(list, updated))
    ensures updated in ReplaceById(list, updated) <==> HasJob(list, updated.id)
  {
    var r := ReplaceById(list, updated);
    if JobIdsUnique(list) {
      forall i, k | 0 <= i < k < |r| ensures r[i].id != r[k].id {
        assert list[i].id != list[k].id;
      }
    }
    if HasJob(list, updated.id) {
      var j :| j in list && j.id == updated.id;
      var i :| 0 <= i < |list| && list[i] == j;
      assert r[i] == updated;
    }
  }

  /** A reply whose id is not listed leaves the list as it is. */
  lemma ReplaceUnlistedIsNoOp(list: seq<Job>, updated: Job)
    requires !HasJob(list, updated.id)
    ensures ReplaceById(list, updated) == list
  {
    assert forall i :: 0 <= i < |list| ==> list[i] in list;
  }

  /** Toggling the status of the `k`-th listed job, as the server answers it,
      changes that job's status and timestamp and nothing else in the list. */
  lemma ToggleUpdatesOneEntry(list: seq<Job>, k: nat, now: nat)
    requires JobIdsUnique(list) && k < |list| && JobFitsColumns(list[k])
    ensures ReplaceById(list, MergeJob(list[k], ToggleBody(list[k]), now).value) ==
      list[k := list[k].(status := Toggled(list[k].status), updatedAt := now)]
  {
    ToggleOnServer(list[k], now);
    forall i | 0 <= i < |list| && i != k ensures list[i].id != list[k].id {
      assert list[i].id != list[k].id;
    }
  }

  // ---------------------------------------------------------------------
  // The page

  class JobsPage {
    /** The rows the route's loader fetched. */
    var loaderJobs: seq<Job>
    var jobsList: seq<Job>
    var formData: JobForm
    var editingJob: Option<Job>
    var showModal: bool
    var isSubmitting: bool

    constructor (loaded: seq<Job>)
      ensures loaderJobs == loaded && jobsList == loaded
      ensures formData == EmptyForm && editingJob == None && !showModal && !isSubmitting
    {
      loaderJobs, jobsList := loaded, loaded;
      formData, editingJob, showModal, isSubmitting := EmptyForm, None, false, false;
    }

    /** The effect run when the `action`/`editId` search parameters change:
        "new" opens an empty form; an `editId` opens the form filled from
        the loader's row with that id, and does nothing if there is none. */
    method OpenFromSearch(action: Option<string>, editId: Option<string>)
      modifies this
      ensures loaderJobs == old(loaderJobs) && jobsList == old(jobsList) && isSubmitting == old(isSubmitting)
      ensures action == Some("new") ==> showModal && editingJob == None && formData == EmptyForm
      ensures action != Some("new") && editId.Some? && editId.value != "" && HasJob(loaderJobs, editId.value) ==>
        && showModal
        && editingJob == JobById(loaderJobs, editId.value)
        && formData == Prefill(editingJob.value)
      ensures action != Some("new") && (editId.None? || editId.value == "" || !HasJob(loaderJobs, editId.value)) ==>
        showModal == old(showModal) && editingJob == old(editingJob) && formData == old(formData)
    {
      if action == Some("new") {
        showModal, editingJob, formData := true, None, EmptyForm;
      } else if editId.Some? && editId.value != "" {
        var found := JobById(loaderJobs, editId.value);
        if found.Some? {
          editingJob, formData, showModal := found, Prefill(found.value), true;
        }
      }
    }

    /** `closeModal`. */
    method CloseModal()
      modifies this
      ensures !showModal && editingJob == None && formData == EmptyForm
      ensures loaderJobs == old(loaderJobs) && jobsList == old(jobsList) && isSubmitting == old(isSubmitting)
    {
      showModal, editingJob, formData := false, None, EmptyForm;
    }

    /** `handleInputChange`: the named control takes the typed value. */
    method HandleInputChange(field: FormField, value: string)
      modifies this
      ensures formData == SetField(old(formData), field, value)
      ensures Get(formData, field) == value && forall g :: g != field ==> Get(formData, g) == Get(old(formData), g)
      ensures loaderJobs == old(loaderJobs) && jobsList == old(jobsList) && editingJob == old(editingJob)
      ensures showModal == old(showModal) && isSubmitting == old(isSubmitting)
    {
      formData := SetField(formData, field, value);
    }

    /** `handleSubmit`. `reply` is the job `updateJob` or `createJob`
        resolved with, or None when the call threw. */
    method HandleSubmit(reply: Option<Job>)
      modifies this
      ensures !isSubmitting && loaderJobs == old(loaderJobs)
      ensures reply.None? ==>
        && jobsList == old(jobsList) && formData == old(formData)
        && editingJob == old(editingJob) && showModal == old(showModal)
      ensures reply.Some? && old(editingJob).Some? ==> jobsList == ReplaceById(old(jobsList), reply.value)
      ensures reply.Some? && old(editingJob).None? ==> jobsList == [reply.value] + old(jobsList)
      ensures reply.Some? ==> !showModal && editingJob == None && formData == EmptyForm
    {
      isSubmitting := true;
      if reply.Some? {
        if editingJob.Some? {
          jobsList := ReplaceById(jobsList, reply.value);
        } else {
          jobsList := [reply.value] + jobsList;
        }
        CloseModal();
      }
      isSubmitting := false;
    }

    /** `handleDelete`. `confirmed` is the answer to the dialog and
        `serverOk` whether `deleteJob` resolved. */
    method HandleDelete(id: string, confirmed: bool, serverOk: bool)
      modifies this
      ensures confirmed && serverOk ==> jobsList == Store.WithoutJob(old(jobsList), id)
      ensures !(confirmed && serverOk) ==> jobsList == old(jobsList)
      ensures loaderJobs == old(loaderJobs) && formData == old(formData) && editingJob == old(editingJob)
      ensures showModal == old(showModal) && isSubmitting == old(isSubmitting)
    {
      if confirmed && serverOk {
        jobsList := Store.WithoutJob(jobsList, id);
      }
    }

    /** `handleStatusToggle`. `reply` is the job `updateJob(job.id, ...)`
        resolved with, which is the row of that id, or None when the call
        threw. */
    method HandleStatusToggle(job: Job, reply: Option<Job>)
      requires reply.Some? ==> reply.value.id == job.id
      modifies this
      ensures reply.Some? ==> jobsList == ReplaceById(old(jobsList), reply.value)
      ensures reply.Some? ==> (reply.value in jobsList <==> HasJob(old(jobsList), job.id))
      ensures reply.None? ==> jobsList == old(jobsList)
      ensures loaderJobs == old(loaderJobs) && formData == old(formData) && editingJob == old(editingJob)
      ensures showModal == old(showModal) && isSubmitting == old(isSubmitting)
    {
      if reply.Some? {
        ReplaceByIdKeepsIds(jobsList, reply.value);
        jobsList := ReplaceById(jobsList, reply.value);
      }
    }
  }

  /** The edit form is filled from the loader's rows, not from `jobsList`:
      a job created on this page is not found by its `editId`. */
  lemma EditLooksUpLoaderRows(loaded: seq<Job>, created: Job)
    requires !HasJob(loaded, created.id)
    ensures JobById(loaded, created.id).None?
    ensures JobById([created] + loaded, created.id) == Some(created)
  {
    assert created in [created] + loaded;
  }
}
