/** The pure parts of `POST /applications`: multer's file filter and size
    limit, the stored file name, the spontaneous rule and the construction
    of the new row. The steps with side effects (storing and unlinking the
    file, the job lookup, the insert) are `Store.JobBoard.SubmitApplication`. */
module Submission {
  import opened Outcomes
  import opened Schema

  const PdfMimetype: string := "application/pdf"
  const MaxResumeBytes: nat := 5 * 1024 * 1024
  const ResumeUrlPrefix: string := "/uploads/resumes/"

  /** The `resume` part of the multipart body as multer sees it. */
  datatype Upload = Upload(originalName: string, mimetype: string, size: nat)

  /** multer's verdict on the part: `fileFilter` runs first, then the
      `fileSize` limit applies while the part is streamed to disk. */
  datatype UploadVerdict = Accepted | NotPdf | TooLarge

  function CheckUpload(u: Upload): (v: UploadVerdict)
    ensures v == Accepted <==> u.mimetype == "application/pdf" && u.size <= 5242880
    ensures u.mimetype != "application/pdf" ==> v == NotPdf
  {
    if u.mimetype != PdfMimetype then NotPdf
    else if u.size > MaxResumeBytes then TooLarge
    else Accepted
  }

  /** Position of the last '.' of `s`. */
  function LastDot(s: string): (r: Option<nat>)
    ensures r.Some? ==> r.value < |s| && s[r.value] == '.' && forall k :: r.value < k < |s| ==> s[k] != '.'
    ensures r.None? ==> forall k :: 0 <= k < |s| ==> s[k] != '.'
  {
    if s == [] then None
    else if s[|s| - 1] == '.' then Some(|s| - 1)
    else LastDot(s[..|s| - 1])
  }

  /** Node's `path.extname` on a name without '/': from the last '.' to the
      end, or "" when there is no dot, when the last dot starts the name, or
      for the name "..". */
  function Extname(name: string): (ext: string)
    ensures ext == [] || (ext[0] == '.' && forall k :: 1 <= k < |ext| ==> ext[k] != '.')
    ensures |ext| <= |name| && ext == name[|name| - |ext|..]
    ensures ext == [] <==> (forall k :: 0 <= k < |name| ==> name[k] != '.') || LastDot(name) == Some(0) || name == ".."
  {
    match LastDot(name)
    case None => ""
    case Some(i) => if i == 0 || name == ".." then "" else name[i..]
  }

  /** A name ending in ".pdf" after a non-empty stem keeps ".pdf". */
  lemma ExtnameOfPdf(stem: string)
    requires stem != []
    ensures Extname(stem + ".pdf") == ".pdf"
  {
    var name := stem + ".pdf";
    assert name[|stem|] == '.';
    assert forall k :: |stem| < k < |name| ==> name[k] != '.';
    var i := LastDot(name);
    assert i == Some(|stem|);
    assert name != "..";
    assert name[|stem|..] == ".pdf";
  }

  /** `storage.filename`: a fresh uuid followed by the original extension. */
  function StoredFilename(uuid: string, originalName: string): (name: string)
    ensures |name| == |uuid| + |Extname(originalName)|
    ensures name[..|uuid|] == uuid
    ensures name[|uuid|..] == Extname(originalName)
  {
    uuid + Extname(originalName)
  }

  /** Two different uuids of one length never give the same file name. */
  lemma StoredFilenamesDistinct(u1: string, n1: string, u2: string, n2: string)
    requires |u1| == |u2| && u1 != u2
    ensures StoredFilename(u1, n1) != StoredFilename(u2, n2)
  {
    assert StoredFilename(u1, n1)[..|u1|] == u1;
    assert StoredFilename(u2, n2)[..|u2|] == u2;
  }

  /** `!jobId || jobId === 'spontaneous'`: no job id, an empty one, or the
      sentinel "spontaneous". */
  predicate IsSpontaneous(jobId: Option<string>)
  {
    jobId.None? || jobId.value == "" || jobId.value == "spontaneous"
  }

  /** `value || null`: a missing or empty form field is stored as NULL. */
  function OrNull(v: Option<string>): (r: Option<string>)
    ensures r.None? <==> v.None? || v.value == ""
    ensures r.Some? ==> r == v
  {
    if v.None? || v.value == "" then None else v
  }

  /** The text fields of the multipart body; a field the form did not send is None. */
  datatype ApplicationForm = ApplicationForm(
    jobId: Option<string>,
    firstName: Option<string>,
    lastName: Option<string>,
    email: Option<string>,
    phone: Option<string>,
    coverLetter: Option<string>,
    linkedinUrl: Option<string>,
    portfolioUrl: Option<string>)

  predicate TooLong(o: Option<string>, n: nat)
  {
    o.Some? && Overflows(o.value, n)
  }

  /** Some value of the new row overflows its `varchar` column. */
  predicate SubmissionExceedsColumns(form: ApplicationForm, file: Upload, storedName: string)
  {
    TooLong(form.firstName, 100) || TooLong(form.lastName, 100) || TooLong(form.email, 255)
    || TooLong(form.phone, 50) || Overflows(ResumeUrlPrefix + storedName, 500) || Overflows(file.originalName, 255)
    || TooLong(form.linkedinUrl, 500) || TooLong(form.portfolioUrl, 500)
  }

  /** The `newApplication` record as the database stores it, or None when
      the insert raises (a required name missing, or a value overflowing its
      column); a value whose excess is all spaces is stored cut. */
  function BuildApplication(form: ApplicationForm, file: Upload, storedName: string, id: string, now: nat): (r: Option<Application>)
    ensures r.Some? <==>
      form.firstName.Some? && form.lastName.Some? && form.email.Some? && !SubmissionExceedsColumns(form, file, storedName)
    ensures r.Some? ==> ApplicationFitsColumns(r.value)
    ensures r.Some? ==>
      && r.value.isSpontaneous == IsSpontaneous(form.jobId)
      && (r.value.jobId.None? <==> r.value.isSpontaneous)
      && (r.value.jobId.Some? ==> r.value.jobId == form.jobId)
    ensures r.Some? ==>
      && r.value.status == Pending && r.value.notes.None?
      && r.value.resumeUrl == Varchar(ResumeUrlPrefix + storedName, 500)
      && r.value.resumeOriginalName == Some(Varchar(file.originalName, 255))
    ensures r.Some? ==>
      && r.value.id == id && r.value.createdAt == now && r.value.updatedAt == now
      && r.value.firstName == Varchar(form.firstName.value, 100) && r.value.lastName == Varchar(form.lastName.value, 100)
      && r.value.email == Varchar(form.email.value, 255)
      && r.value.phone == VarcharOption(OrNull(form.phone), 50) && r.value.coverLetter == OrNull(form.coverLetter)
      && r.value.linkedinUrl == VarcharOption(OrNull(form.linkedinUrl), 500)
      && r.value.portfolioUrl == VarcharOption(OrNull(form.portfolioUrl), 500)
  {
    if form.firstName.None? || form.lastName.None? || form.email.None? || SubmissionExceedsColumns(form, file, storedName) then
      None
    else
      var spontaneous := IsSpontaneous(form.jobId);
      Some(Application(
        id,
        if spontaneous then None else form.jobId,
        Varchar(form.firstName.value, 100),
        Varchar(form.lastName.value, 100),
        Varchar(form.email.value, 255),
        VarcharOption(OrNull(form.phone), 50),
        Varchar(ResumeUrlPrefix + storedName, 500),
        Some(Varchar(file.originalName, 255)),
        OrNull(form.coverLetter),
        VarcharOption(OrNull(form.linkedinUrl), 500),
        VarcharOption(OrNull(form.portfolioUrl), 500),
        spontaneous,
        Pending,
        None,
        now,
        now))
  }
}
