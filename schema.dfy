/** The two tables of the job board (`jobs`, `applications`), their enum
    columns, defaults, NOT NULL and length constraints, and what the
    database makes of an insert or an update that supplies a JSON body. */
module Schema {
  import opened Outcomes
  import opened Lists

  datatype JobType = FullTime | PartTime | Contract | Internship | Remote
  datatype JobStatus = Open | Closed | Draft
  datatype AppStatus = Pending | Reviewed | Shortlisted | Rejected | Hired

  /** The literals the database stores for each enum value. */
  function JobTypeName(t: JobType): string
  {
    match t
    case FullTime => "full-time"
    case PartTime => "part-time"
    case Contract => "contract"
    case Internship => "internship"
    case Remote => "remote"
  }

  function JobStatusName(s: JobStatus): string
  {
    match s
    case Open => "open"
    case Closed => "closed"
    case Draft => "draft"
  }

  function AppStatusName(s: AppStatus): string
  {
    match s
    case Pending => "pending"
    case Reviewed => "reviewed"
    case Shortlisted => "shortlisted"
    case Rejected => "rejected"
    case Hired => "hired"
  }

  /** Postgres' reading of a literal for an enum column: one of the five
      names, or an "invalid input value for enum" error. */
  function ParseJobType(s: string): (r: Option<JobType>)
    ensures r.Some? ==> JobTypeName(r.value) == s
    ensures r.None? ==> forall t: JobType :: JobTypeName(t) != s
  {
    if s == "full-time" then Some(FullTime)
    else if s == "part-time" then Some(PartTime)
    else if s == "contract" then Some(Contract)
    else if s == "internship" then Some(Internship)
    else if s == "remote" then Some(Remote)
    else None
  }

  function ParseJobStatus(s: string): (r: Option<JobStatus>)
    ensures r.Some? ==> JobStatusName(r.value) == s
    ensures r.None? ==> forall t: JobStatus :: JobStatusName(t) != s
  {
    if s == "open" then Some(Open)
    else if s == "closed" then Some(Closed)
    else if s == "draft" then Some(Draft)
    else None
  }

  function ParseAppStatus(s: string): (r: Option<AppStatus>)
    ensures r.Some? ==> AppStatusName(r.value) == s
    ensures r.None? ==> forall t: AppStatus :: AppStatusName(t) != s
  {
    if s == "pending" then Some(Pending)
    else if s == "reviewed" then Some(Reviewed)
    else if s == "shortlisted" then Some(Shortlisted)
    else if s == "rejected" then Some(Rejected)
    else if s == "hired" then Some(Hired)
    else None
  }

  /** Each enum literal reads back as the value it names. */
  lemma EnumNamesRoundTrip(t: JobType, s: JobStatus, a: AppStatus)
    ensures ParseJobType(JobTypeName(t)) == Some(t)
    ensures ParseJobStatus(JobStatusName(s)) == Some(s)
    ensures ParseAppStatus(AppStatusName(a)) == Some(a)
  {
  }

  // Column defaults
  const DefaultJobType: JobType := FullTime
  const DefaultJobStatus: JobStatus := Open
  const DefaultIsSpontaneous: bool := false
  const DefaultAppStatus: AppStatus := Pending

  /** A row of `jobs`. Timestamps are readings of an abstract clock. */
  datatype Job = Job(
    id: string,
    title: string,
    department: string,
    location: string,
    jobType: JobType,
    description: string,
    requirements: Option<string>,
    benefits: Option<string>,
    salary: Option<string>,
    status: JobStatus,
    createdAt: nat,
    updatedAt: nat)

  /** A row of `applications`; `jobId` is a nullable reference to `jobs.id`. */
  datatype Application = Application(
    id: string,
    jobId: Option<string>,
    firstName: string,
    lastName: string,
    email: string,
    phone: Option<string>,
    resumeUrl: string,
    resumeOriginalName: Option<string>,
    coverLetter: Option<string>,
    linkedinUrl: Option<string>,
    portfolioUrl: Option<string>,
    isSpontaneous: bool,
    status: AppStatus,
    notes: Option<string>,
    createdAt: nat,
    updatedAt: nat)

  predicate FitsOptional(o: Option<string>, n: nat)
  {
    o.None? || |o.value| <= n
  }

  /** A value too long for a `varchar(n)` column: beyond its first `n`
      characters there is one that is not a space. Postgres raises for it. */
  predicate Overflows(s: string, n: nat)
  {
    exists i :: n <= i < |s| && s[i] != ' '
  }

  /** What a `varchar(n)` column stores of a value: the value itself when it
      fits, and otherwise its first `n` characters, which Postgres keeps
      without an error when everything cut off is a space. */
  function Varchar(s: string, n: nat): (r: string)
    ensures |r| <= n && |r| <= |s|
    ensures r == s[..|r|]
    ensures |s| <= n ==> r == s
    ensures !Overflows(s, n) ==> forall i :: |r| <= i < |s| ==> s[i] == ' '
  {
    if |s| <= n then s else s[..n]
  }

  /** `Varchar` on a nullable column: null stays null. */
  function VarcharOption(o: Option<string>, n: nat): (r: Option<string>)
    ensures r.None? <==> o.None?
    ensures FitsOptional(r, n)
    ensures FitsOptional(o, n) ==> r == o
  {
    if o.Some? then Some(Varchar(o.value, n)) else None
  }

  /** The `varchar(n)` bounds of the `jobs` table. */
  predicate JobFitsColumns(j: Job)
  {
    |j.title| <= 255 && |j.department| <= 100 && |j.location| <= 255 && FitsOptional(j.salary, 100)
  }

  /** The `varchar(n)` bounds of the `applications` table. */
  predicate ApplicationFitsColumns(a: Application)
  {
    && |a.firstName| <= 100 && |a.lastName| <= 100 && |a.email| <= 255
    && FitsOptional(a.phone, 50) && |a.resumeUrl| <= 500 && FitsOptional(a.resumeOriginalName, 255)
    && FitsOptional(a.linkedinUrl, 500) && FitsOptional(a.portfolioUrl, 500)
  }

  function JobId(j: Job): string { j.id }

  function ApplicationId(a: Application): string { a.id }

  /** `jobs.id` is the primary key. */
  predicate JobIdsUnique(jobs: seq<Job>)
  {
    forall i, j :: 0 <= i < j < |jobs| ==> jobs[i].id != jobs[j].id
  }

  /** `applications.id` is the primary key. */
  predicate ApplicationIdsUnique(apps: seq<Application>)
  {
    forall i, j :: 0 <= i < j < |apps| ==> apps[i].id != apps[j].id
  }

  predicate HasJob(jobs: seq<Job>, id: string)
  {
    exists j :: j in jobs && j.id == id
  }

  /** Position of the first job with that id. */
  function JobIndex(jobs: seq<Job>, id: string): (r: Option<nat>)
    ensures r.Some? ==> r.value < |jobs| && jobs[r.value].id == id
    ensures r.None? <==> !HasJob(jobs, id)
  {
    if jobs == [] then None
    else if jobs[0].id == id then Some(0)
    else match JobIndex(jobs[1..], id)
      case Some(i) => Some(i + 1)
      case None =>
        assert forall j :: j in jobs ==> j == jobs[0] || j in jobs[1..];
        None
  }

  /** `SELECT ... FROM jobs WHERE id = ? LIMIT 1`. */
  function JobById(jobs: seq<Job>, id: string): (r: Option<Job>)
    ensures r.Some? ==> r.value in jobs && r.value.id == id
    ensures r.None? <==> !HasJob(jobs, id)
  {
    match JobIndex(jobs, id)
    case Some(i) => Some(jobs[i])
    case None => None
  }

  /** With a primary key, the row found is the only row with that id. */
  lemma JobByIdFindsTheRow(jobs: seq<Job>, k: nat)
    requires JobIdsUnique(jobs) && k < |jobs|
    ensures JobById(jobs, jobs[k].id) == Some(jobs[k])
  {
    var r := JobById(jobs, jobs[k].id);
    var i :| 0 <= i < |jobs| && jobs[i] == r.value;
  }

  predicate HasApplication(apps: seq<Application>, id: string)
  {
    exists a :: a in apps && a.id == id
  }

  /** Position of the first application with that id. */
  function ApplicationIndex(apps: seq<Application>, id: string): (r: Option<nat>)
    ensures r.Some? ==> r.value < |apps| && apps[r.value].id == id
    ensures r.None? <==> !HasApplication(apps, id)
  {
    if apps == [] then None
    else if apps[0].id == id then Some(0)
    else match ApplicationIndex(apps[1..], id)
      case Some(i) => Some(i + 1)
      case None =>
        assert forall a :: a in apps ==> a == apps[0] || a in apps[1..];
        None
  }

  /** `SELECT ... FROM applications WHERE id = ?`. */
  function ApplicationById(apps: seq<Application>, id: string): (r: Option<Application>)
    ensures r.Some? ==> r.value in apps && r.value.id == id
    ensures r.None? <==> !HasApplication(apps, id)
  {
    match ApplicationIndex(apps, id)
    case Some(i) => Some(apps[i])
    case None => None
  }

  /** With a primary key, the application found is the only row with that id. */
  lemma ApplicationByIdFindsTheRow(apps: seq<Application>, k: nat)
    requires ApplicationIdsUnique(apps) && k < |apps|
    ensures ApplicationById(apps, apps[k].id) == Some(apps[k])
    ensures forall m :: 0 <= m < |apps| && m != k ==> apps[m].id != apps[k].id
  {
    var r := ApplicationById(apps, apps[k].id);
    var i :| 0 <= i < |apps| && apps[i] == r.value;
    forall m | 0 <= m < |apps| && m != k ensures apps[m].id != apps[k].id {
      if m < k {
        assert apps[m].id != apps[k].id;
      }
    }
  }

  // ---------------------------------------------------------------------
  // What a JSON body supplies for one column, and how the database reads it.

  /** A property of a request body: left out (`undefined`), `null`, or a string. */
  datatype Field = Absent | Null | Value(text: string)

  /** The body of `POST /admin/jobs` or `PUT /admin/jobs/:id`. */
  datatype JobInput = JobInput(
    title: Field,
    department: Field,
    location: Field,
    jobType: Field,
    description: Field,
    requirements: Field,
    benefits: Field,
    salary: Field,
    status: Field)

  /** Null for a nullable column (an absent property inserts NULL too). */
  function NullableText(f: Field): Option<string>
  {
    if f.Value? then Some(f.text) else None
  }

  /** A column that `.notNull()` forbids to be null is given `null`. */
  predicate NullsRequired(input: JobInput)
  {
    input.title.Null? || input.department.Null? || input.location.Null? || input.description.Null?
    || input.jobType.Null? || input.status.Null?
  }

  /** An insert leaves out a NOT NULL column that has no default. */
  predicate OmitsRequired(input: JobInput)
  {
    input.title.Absent? || input.department.Absent? || input.location.Absent? || input.description.Absent?
  }

  /** Every enum literal in the body names a value of its enum. */
  predicate EnumLiteralsValid(input: JobInput)
  {
    (input.jobType.Value? ==> ParseJobType(input.jobType.text).Some?)
    && (input.status.Value? ==> ParseJobStatus(input.status.text).Some?)
  }

  /** A string in the body overflows its `varchar` column. */
  predicate ExceedsColumn(input: JobInput)
  {
    (input.title.Value? && Overflows(input.title.text, 255))
    || (input.department.Value? && Overflows(input.department.text, 100))
    || (input.location.Value? && Overflows(input.location.text, 255))
    || (input.salary.Value? && Overflows(input.salary.text, 100))
  }

  /** `INSERT INTO jobs VALUES (body) RETURNING *`: the row the database
      stores, or None when it raises (NOT NULL, enum or length violation).
      An omitted type becomes "full-time" and an omitted status "open". */
  function InsertJob(input: JobInput, id: string, now: nat): (r: Option<Job>)
    ensures r.Some? <==>
      !OmitsRequired(input) && !NullsRequired(input) && EnumLiteralsValid(input) && !ExceedsColumn(input)
    ensures r.Some? ==> JobFitsColumns(r.value)
    ensures r.Some? ==> r.value.id == id && r.value.createdAt == now && r.value.updatedAt == now
    ensures r.Some? ==>
      && r.value.title == Varchar(input.title.text, 255) && r.value.department == Varchar(input.department.text, 100)
      && r.value.location == Varchar(input.location.text, 255) && r.value.description == input.description.text
      && r.value.requirements == NullableText(input.requirements)
      && r.value.benefits == NullableText(input.benefits)
      && r.value.salary == VarcharOption(NullableText(input.salary), 100)
    ensures r.Some? ==>
      && (if input.jobType.Absent? then r.value.jobType == DefaultJobType
          else JobTypeName(r.value.jobType) == input.jobType.text)
      && (if input.status.Absent? then r.value.status == DefaultJobStatus
          else JobStatusName(r.value.status) == input.status.text)
  {
    if OmitsRequired(input) || NullsRequired(input) || !EnumLiteralsValid(input) || ExceedsColumn(input) then
      None
    else
      var t := if input.jobType.Absent? then DefaultJobType else ParseJobType(input.jobType.text).value;
      var s := if input.status.Absent? then DefaultJobStatus else ParseJobStatus(input.status.text).value;
      Some(Job(id, Varchar(input.title.text, 255), Varchar(input.department.text, 100),
               Varchar(input.location.text, 255), t, input.description.text,
               NullableText(input.requirements), NullableText(input.benefits),
               VarcharOption(NullableText(input.salary), 100), s, now, now))
  }

  /** The new value of a column under `.set(body)`: unchanged when the body
      leaves the property out. */
  function SetText(prev: string, f: Field): string
  {
    if f.Value? then f.text else prev
  }

  function SetNullable(prev: Option<string>, f: Field): Option<string>
  {
    match f
    case Absent => prev
    case Null => None
    case Value(s) => Some(s)
  }

  /** `UPDATE jobs SET body, updatedAt = now WHERE id = ?` on the matching
      row: the merged row, or None when the database raises. */
  function MergeJob(prev: Job, input: JobInput, now: nat): (r: Option<Job>)
    requires JobFitsColumns(prev)
    ensures r.Some? <==> !NullsRequired(input) && EnumLiteralsValid(input) && !ExceedsColumn(input)
    ensures r.Some? ==> JobFitsColumns(r.value)
    ensures r.Some? ==> r.value.id == prev.id && r.value.createdAt == prev.createdAt && r.value.updatedAt == now
    // a property the body leaves out keeps its prev value ...
    ensures r.Some? ==>
      && (input.title.Absent? ==> r.value.title == prev.title)
      && (input.department.Absent? ==> r.value.department == prev.department)
      && (input.location.Absent? ==> r.value.location == prev.location)
      && (input.jobType.Absent? ==> r.value.jobType == prev.jobType)
      && (input.description.Absent? ==> r.value.description == prev.description)
      && (input.requirements.Absent? ==> r.value.requirements == prev.requirements)
      && (input.benefits.Absent? ==> r.value.benefits == prev.benefits)
      && (input.salary.Absent? ==> r.value.salary == prev.salary)
      && (input.status.Absent? ==> r.value.status == prev.status)
    // ... and one it supplies is stored as its column keeps it
    ensures r.Some? ==>
      && (input.title.Value? ==> r.value.title == Varchar(input.title.text, 255))
      && (input.department.Value? ==> r.value.department == Varchar(input.department.text, 100))
      && (input.location.Value? ==> r.value.location == Varchar(input.location.text, 255))
      && (input.jobType.Value? ==> JobTypeName(r.value.jobType) == input.jobType.text)
      && (input.description.Value? ==> r.value.description == input.description.text)
      && (!input.requirements.Absent? ==> r.value.requirements == NullableText(input.requirements))
      && (!input.benefits.Absent? ==> r.value.benefits == NullableText(input.benefits))
      && (!input.salary.Absent? ==> r.value.salary == VarcharOption(NullableText(input.salary), 100))
      && (input.status.Value? ==> JobStatusName(r.value.status) == input.status.text)
  {
    if NullsRequired(input) || !EnumLiteralsValid(input) || ExceedsColumn(input) then
      None
    else
      var t := if input.jobType.Value? then ParseJobType(input.jobType.text).value else prev.jobType;
      var s := if input.status.Value? then ParseJobStatus(input.status.text).value else prev.status;
      Some(prev.(title := Varchar(SetText(prev.title, input.title), 255),
                department := Varchar(SetText(prev.department, input.department), 100),
                location := Varchar(SetText(prev.location, input.location), 255),
                jobType := t,
                description := SetText(prev.description, input.description),
                requirements := SetNullable(prev.requirements, input.requirements),
                benefits := SetNullable(prev.benefits, input.benefits),
                salary := VarcharOption(SetNullable(prev.salary, input.salary), 100),
                status := s,
                updatedAt := now))
  }

  /** `n` spaces. */
  function Spaces(n: nat): (r: string)
    ensures |r| == n && forall i :: 0 <= i < n ==> r[i] == ' '
  {
    seq(n, _ => ' ')
  }

  /** A full-length title followed by any number of spaces inserts the same
      row as the title alone: Postgres cuts the spaces instead of raising. */
  lemma PaddedTitleIsCut(input: JobInput, title: string, pad: nat, id: string, now: nat)
    requires |title| == 255 && input.title == Value(title + Spaces(pad))
    ensures InsertJob(input, id, now) == InsertJob(input.(title := Value(title)), id, now)
  {
    var padded := title + Spaces(pad);
    assert !Overflows(padded, 255) by {
      forall i | 255 <= i < |padded| ensures padded[i] == ' ' {
        assert padded[i] == Spaces(pad)[i - 255];
      }
    }
    assert !Overflows(title, 255);
    assert Varchar(padded, 255) == padded[..255] == title;
  }

  /** A body that supplies nothing only refreshes `updatedAt`. */
  lemma MergeEmptyBody(prev: Job, now: nat)
    requires JobFitsColumns(prev)
    ensures MergeJob(prev, JobInput(Absent, Absent, Absent, Absent, Absent, Absent, Absent, Absent, Absent), now)
            == Some(prev.(updatedAt := now))
  {
  }

  /** Sending the same body twice leaves what sending it once left, up to
      the refreshed timestamp. */
  lemma MergeIdempotent(prev: Job, input: JobInput, now1: nat, now2: nat)
    requires JobFitsColumns(prev)
    requires MergeJob(prev, input, now1).Some?
    ensures MergeJob(MergeJob(prev, input, now1).value, input, now2) == Some(MergeJob(prev, input, now1).value.(updatedAt := now2))
  {
  }
}
