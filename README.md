# Job board — a Dafny model

This project models the core of a small job board. It has two parts.

The Express backend keeps two Postgres tables, `jobs` and `applications`, and a directory of uploaded résumés. It serves:

- a public list of open jobs and the detail page of one job;
- a public application form with a PDF upload (multer);
- an admin API behind a fixed bearer token. The admin API lists, creates, updates and deletes jobs; lists, reviews and deletes applications; and computes dashboard statistics.

The React frontend has three pages and a layout:

- a public job list with a search box, department and type filters and facet lists;
- an admin applications page;
- an admin jobs page with a modal form;
- the admin layout, whose side navigation highlights the current section.

Layout of the model:

- `outcomes.dfy` (`Outcomes`): `Option`, and `Reply` carrying a 400/401/404/500 `Failure`.
- `lists.dfy` (`Lists`): generic list facts used throughout: filter, subsequence, stable insertion sort, unique keys, first index.
- `schema.dfy` (`Schema`): the two tables, the enum types, column defaults, NOT NULL and `varchar` bounds. A `varchar(n)` value is refused only when a character beyond the first n is not a space; an excess made of spaces alone is cut off and the row is stored. It also defines what the database makes of an INSERT or an `UPDATE … SET body`: the row, or an error when the body breaks a constraint.
- `jobs.dfy` (`PublicJobs`): `GET /jobs` and `GET /jobs/:id`.
- `submission.dfy` (`Submission`): the pure side of `POST /applications`. That is multer's filter and size limit, the stored file name (`uuid + extname`), the spontaneous rule and the new row.
- `admin.dfy` (`Admin`): the bearer-token check and the read-only admin routes: job list, joined application list with filters, one application, statistics.
- `store.dfy` (`Store`): the class `JobBoard`, whose one field `state` holds both tables, the résumé directory and a clock. Every route that writes is one method that replaces `state`. Each method preserves an invariant: primary keys, column bounds, timestamps no later than the clock, the foreign key with `ON DELETE SET NULL`, "spontaneous ⇒ no job", and "every application's résumé URL is what its 500-character column keeps of the URL of a stored file". That URL names the file itself unless it was cut, which takes a file extension of several hundred characters ending in spaces. `HandleAdmin` puts the token check in front of every admin route.
- `job_search.dfy` (`JobSearch`): the public list page: filtering, the sorted distinct facet lists, and `formatJobType`.
- `admin_applications_page.dfy` (`ApplicationsPage`): the admin applications page as a class. Its state is the row list, the two filters and the selected row.
- `admin_jobs_page.dfy` (`JobsPage`): the admin jobs page as a class. Its state is the job list, the form, the edited job and the modal flags. It also holds the lemmas that connect the page's requests to the backend's merge rule.
- `admin_nav.dfy` (`AdminNav`): the `isActive` test of the admin navigation.

Database timestamps are readings of a clock (`nat`). The clock advances by one on each successful insert or update. Deletes leave it alone.

Server replies that a page awaits are parameters of its handlers:

- `serverOk` says whether the call resolved;
- `reply: Option<Job>` is the job the call resolved with.

The confirmation dialog's answer is a parameter too.

The uuids that multer and the database generate are also parameters. The uuid of a stored résumé is taken to be fresh: its file name is not yet in the upload directory.

## Model

| member | source | states |
|---|---|---|
| Schema.ParseJobType | backend/src/db/schema.ts:3 | A literal is accepted exactly when it names one of the five job types, and it reads back as the type it names. |
| Schema.ParseJobStatus | backend/src/db/schema.ts:4 | A literal is accepted exactly when it is "open", "closed" or "draft". |
| Schema.ParseAppStatus | backend/src/db/schema.ts:5 | A literal is accepted exactly when it names one of the five application statuses. |
| Schema.EnumNamesRoundTrip | backend/src/db/schema.ts:3-5 | Every enum value's literal parses back to that value. |
| Schema.InsertJob | backend/src/db/schema.ts:7-20 | An insert succeeds iff no required column is omitted or null, both enum literals are valid and no text overflows its `varchar` column. The row fits its columns and holds the body's texts as their columns keep them (absent optional ones become null). It defaults type to full-time and status to open. |
| Schema.Varchar | backend/src/db/schema.ts:9-32 | What a `varchar(n)` column stores is a prefix of the value, at most n long, and the whole value when it fits. When the value does not overflow, only spaces are cut off. |
| Schema.VarcharOption | backend/src/db/schema.ts:16 | On a nullable column null stays null, and a value that fits is kept. |
| Schema.PaddedTitleIsCut | backend/src/db/schema.ts:9 | A 255-character title followed by any number of spaces inserts the same row as the title alone. |
| Schema.MergeJob | backend/src/routes/admin.ts:43-49 | `.set({...body, updatedAt})` fails iff a required column is set to null, an enum literal is invalid or a text overflows its column. Otherwise an absent property keeps the old value, a supplied one is stored as its column keeps it, id and createdAt are kept, and updatedAt is the new time. |
| Schema.MergeEmptyBody | backend/src/routes/admin.ts:47 | An empty body only refreshes updatedAt. |
| Schema.MergeIdempotent | backend/src/routes/admin.ts:45-49 | Sending the same update twice leaves what sending it once left, apart from the timestamp. |
| Schema.JobById | backend/src/routes/jobs.ts:26-30 | The lookup returns a row of the table with that id, and returns nothing exactly when no row has that id. |
| Schema.JobByIdFindsTheRow | backend/src/db/schema.ts:8 | With `id` as primary key, looking up a row's id finds that very row. |
| Schema.ApplicationById | backend/src/routes/admin.ts:169 | The lookup returns an application with that id, and returns nothing exactly when no application has it. |
| Schema.ApplicationByIdFindsTheRow | backend/src/db/schema.ts:23 | With `id` as primary key, looking up a row's id finds that row, and no other row has its id. |
| PublicJobs.ListOpenJobs | backend/src/routes/jobs.ts:8-21 | The list holds exactly the open jobs, each as often as in the table, oldest first. |
| PublicJobs.GetJob | backend/src/routes/jobs.ts:23-42 | The reply is a row with the requested id, and is 404 exactly when no job has that id. |
| PublicJobs.DetailShowsUnlistedJobs | backend/src/routes/jobs.ts:10-30 | A closed or draft job is missing from the public list, yet its detail resolves by id. |
| Submission.CheckUpload | backend/src/routes/applications.ts:26-38 | A part is accepted iff its mimetype is application/pdf and it is at most 5 MiB. The mimetype test comes first. |
| Submission.Extname | backend/src/routes/applications.ts:21 | The extension is "" or a '.' followed by no other dot, and it is a suffix of the name. It is empty iff the name has no dot, begins with its only dot, or is "..". |
| Submission.ExtnameOfPdf | backend/src/routes/applications.ts:21 | "x.pdf" keeps the extension ".pdf". |
| Submission.StoredFilename | backend/src/routes/applications.ts:20-23 | The stored name is the uuid followed by exactly the original name's extension. |
| Submission.StoredFilenamesDistinct | backend/src/routes/applications.ts:21 | Distinct uuids of one length give distinct file names. |
| Submission.OrNull | backend/src/routes/applications.ts:76-80 | `value \|\| null` is null exactly for a missing or empty field, and keeps any other value. |
| Submission.BuildApplication | backend/src/routes/applications.ts:60-86 | The insert succeeds iff first name, last name and email are present and nothing overflows its column. Values whose excess is spaces are stored cut. The row is spontaneous iff the job id is missing, empty or "spontaneous", and then has no job id. Its status is pending, its notes are null, and its résumé URL is what the column keeps of the upload prefix plus the stored name. |
| Admin.AdminAuth | backend/src/routes/admin.ts:8-17 | A request passes exactly when its Authorization header is "Bearer admin-secret-token". |
| Admin.AdminAuthRejectsNearMisses | backend/src/routes/admin.ts:12 | A missing or empty header, a lower-case scheme, the bare token and a trailing space are all rejected. |
| Admin.LeftJoin | backend/src/routes/admin.ts:84-90 | One row per application, in order. The job is attached exactly when the application's job id resolves. |
| Admin.AdminListJobs | backend/src/routes/admin.ts:19-27 | Every job exactly once per occurrence, newest first. |
| Admin.FilterApplications | backend/src/routes/admin.ts:95-104 | A row is kept iff `type` lets it through ("spontaneous" keeps spontaneous rows, "job" the others, anything else keeps all) and a non-empty `status` equals its status. |
| Admin.FilterApplicationsKeepsOrder | backend/src/routes/admin.ts:95-104 | The filtered rows are a subsequence of the query's rows. |
| Admin.TypeFiltersPartition | backend/src/routes/admin.ts:96-100 | The "spontaneous" and "job" lists together have as many rows as the unfiltered list. |
| Admin.ListApplications | backend/src/routes/admin.ts:80-111 | The reply holds exactly the joined rows that the filters let through, newest application first. |
| Admin.GetApplication | backend/src/routes/admin.ts:113-137 | The reply is a row of the LEFT JOIN, so its job is the application's job when the reference resolves. It belongs to an application with that id, and is missing exactly when no application has it. |
| Admin.JobStatusPartition | backend/src/routes/admin.ts:190-192 | Open, closed and draft counts add up to the number of jobs. |
| Admin.AppStatusPartition | backend/src/routes/admin.ts:196-202 | The five status counts add up to the number of applications. |
| Admin.ComputeStats | backend/src/routes/admin.ts:183-210 | The totals are the table sizes. The job counts partition the jobs and the status counts partition the applications. pendingApplications equals the pending status count, and the spontaneous count is at most the total. |
| Admin.StatsOfEmptyTables | backend/src/routes/admin.ts:188-203 | Empty tables give all-zero statistics. |
| Admin.SpontaneousComplement | backend/src/routes/admin.ts:195 | Spontaneous and job-bound applications together are all applications. |
| Admin.JobsWithStatusAppend | backend/src/routes/admin.ts:191-193 | Appending a job raises the count of its own status by one and leaves the other status counts alone. |
| Admin.AppsWithStatusAppend | backend/src/routes/admin.ts:196-203 | Appending an application raises the count of its own status by one and leaves the other status counts alone. |
| Admin.StatsAfterOpenJobAndHiredApplication | backend/src/routes/admin.ts:188-203 | Adding an open job and a hired application to a job raises exactly the matching counters by one. |
| Store.DetachJob | backend/src/db/schema.ts:24 | `ON DELETE SET NULL`: applications of the deleted job lose their job id, and nothing else about any application changes. |
| Store.ApplyReview | backend/src/routes/admin.ts:144-146 | A non-empty status replaces the status. Notes are replaced whenever the body has them, and null clears them. updatedAt is the new time, and nothing else changes. |
| Store.WithoutJob | backend/src/routes/admin.ts:66 | Keeps exactly the jobs with another id, in order, with keys still unique. Exactly one row goes when the id exists, none otherwise. |
| Store.WithoutApplication | backend/src/routes/admin.ts:169 | Keeps exactly the applications with another id, in order, with keys still unique. Exactly one row goes when the id exists, none otherwise. |
| Store.DeleteJobKeepsInvariant | backend/src/db/schema.ts:24 | After a job delete with SET NULL the invariant holds: no application points at the deleted job. |
| Store.ReviewKeepsInvariant | backend/src/routes/admin.ts:139-164 | A review stamped with the next tick keeps every guarantee. |
| Store.InsertKeepsInvariant | backend/src/routes/admin.ts:29-38 | Appending a job that fits the columns, has an unused id and is stamped with the next tick keeps every guarantee. |
| Store.MergeKeepsInvariant | backend/src/routes/admin.ts:40-61 | Replacing a job by a merge that keeps its id and creation time, stamped with the next tick, keeps every guarantee. |
| Store.SubmitKeepsInvariant | backend/src/routes/applications.ts:71-86 | Appending a well-formed application whose résumé was just stored keeps every guarantee. |
| Store.JobBoard.constructor | backend/src/db/schema.ts:7-39 | The board starts empty and valid. |
| Store.JobBoard.CreateJob | backend/src/routes/admin.ts:29-38 | The job is appended exactly when the insert succeeds and the new id is unused; otherwise the reply is 500 and nothing changes. |
| Store.JobBoard.UpdateJob | backend/src/routes/admin.ts:40-61 | An invalid enum literal gives 500 and an unknown id gives 404. Otherwise it succeeds iff the merge succeeds, and fails with 500 if not. A failure changes nothing. On success only the row with that id is replaced, by the merge of the body at the next tick. |
| Store.JobBoard.DeleteJob | backend/src/routes/admin.ts:63-78 | Succeeds iff the id exists, with "Job deleted successfully". It removes that one job and detaches its applications; otherwise the reply is 404 and nothing changes. |
| Store.JobBoard.PatchApplication | backend/src/routes/admin.ts:139-164 | An invalid status literal gives 500 before any lookup. Otherwise the patch succeeds iff the id exists (else 404). On success only the row with that id is replaced, by its review at the next tick; a failure changes nothing. |
| Store.JobBoard.DeleteApplication | backend/src/routes/admin.ts:166-181 | Succeeds iff the id exists, removing exactly that application and leaving its résumé file on disk; otherwise the reply is 404. |
| Store.JobBoard.SubmitApplication | backend/src/routes/applications.ts:42-99 | Given a fresh uuid, in order: a missing file gives 400, a non-PDF gives 400 "Only PDF files are allowed", a file over 5 MiB gives 500, and an unknown job gives 404. The submission succeeds iff the row can be built, its id is new and the insert does not fail; every other failure gives 500. It then appends the row and records the stored file; on every failure the tables and the directory are unchanged. |
| Store.JobBoard.HandleAdmin | backend/src/routes/admin.ts:10-17 | Without the token: 401 and no change. The read routes change nothing; with the token they answer with the job list, the filtered list, one row (or 404) or the statistics. |
| JobSearch.Includes | frontend/src/routes/index.tsx:36-38 | `includes` holds exactly when the needle occurs at some position of the haystack. |
| JobSearch.FilteredJobs | frontend/src/routes/index.tsx:34-45 | A job is shown iff the lower-cased term occurs in its lower-cased title, department or location, and each non-empty select equals its value. The shown jobs keep the loaded order. |
| JobSearch.SearchIgnoresCase | frontend/src/routes/index.tsx:36-38 | Terms that lower-case alike filter alike. |
| JobSearch.ClearedShowsEverything | frontend/src/routes/index.tsx:124-128 | After "Clear all filters" the list is all loaded jobs, in order. |
| JobSearch.SortedDistinct | frontend/src/routes/index.tsx:25 | `[...new Set(vals)].sort()`: the result is strictly ascending and holds exactly the values given. |
| JobSearch.StrictlySortedUnique | frontend/src/routes/index.tsx:25 | Two strictly ascending lists with the same elements are equal, so the facet list is the unique sorted, de-duplicated list. |
| JobSearch.Departments | frontend/src/routes/index.tsx:24-27 | The list holds each department of the loaded jobs exactly once, in ascending order. |
| JobSearch.JobTypes | frontend/src/routes/index.tsx:29-32 | The list holds each job type of the loaded jobs exactly once, in ascending order. |
| JobSearch.ListedDepartmentIsNeverEmpty | frontend/src/routes/index.tsx:40 | Picking an offered department always leaves at least one job shown. |
| JobSearch.Split | frontend/src/routes/index.tsx:48 | `split('-')` gives at least one piece, and no piece contains '-'. |
| JobSearch.JoinSplit | frontend/src/routes/index.tsx:48 | Joining the pieces of a split with the separator gives back the string. |
| JobSearch.FormatJobType | frontend/src/routes/index.tsx:47-49 | The label is as long as the type and contains no '-'. |
| JobSearch.FormatJobTypeCharwise | frontend/src/routes/index.tsx:47-49 | `formatJobType` keeps the length and turns each '-' into a space. It upper-cases the first character and every character after a '-', and leaves the rest alone. |
| JobSearch.FormatIsRespell | frontend/src/routes/index.tsx:48 | Splitting on '-', capitalising and joining with ' ' is the same as the character-by-character rule. |
| JobSearch.OneWordLabel | frontend/src/routes/index.tsx:47-49 | For a type without '-', the label is the type with only its first character upper-cased. |
| JobSearch.TwoWordLabel | frontend/src/routes/index.tsx:47-49 | For a type with one inner '-', the label upper-cases the first character and the one after the '-', turns the '-' into a space, and keeps the rest. |
| JobSearch.LabelFullTime | frontend/src/routes/index.tsx:117 | "full-time" is shown as "Full Time". |
| JobSearch.LabelPartTime | frontend/src/routes/admin/jobs.tsx:289 | "part-time" is shown as "Part Time", the label of the form's option. |
| JobSearch.LabelContract | frontend/src/routes/admin/jobs.tsx:290 | "contract" is shown as "Contract". |
| JobSearch.LabelInternship | frontend/src/routes/admin/jobs.tsx:291 | "internship" is shown as "Internship". |
| JobSearch.LabelRemote | frontend/src/routes/admin/jobs.tsx:292 | "remote" is shown as "Remote". |
| ApplicationsPage.FilteredApplications | frontend/src/routes/admin/applications.tsx:20-26 | A row is shown iff the type select is "", or "spontaneous" on a spontaneous row, or "job" on the others, and the status select is "" or equals its status. The shown rows keep their order. |
| ApplicationsPage.PageFilterAgreesWithServer | frontend/src/routes/admin/applications.tsx:20-26 | For "", "spontaneous" and "job" the page filters exactly as `GET /admin/applications?type=&status=` does. |
| ApplicationsPage.UnknownTypeHidesEverything | frontend/src/routes/admin/applications.tsx:21-23 | Any other type value hides every row, although the server would ignore it. |
| ApplicationsPage.SetStatusById | frontend/src/routes/admin/applications.tsx:31-37 | The map keeps the list's length, and every row keeps its place, its id and its job. |
| ApplicationsPage.SetStatusOnlyChangesStatus | frontend/src/routes/admin/applications.tsx:31-37 | After a status change every row keeps its id, its job and all other fields, and the rows with that id have the new status. |
| ApplicationsPage.SetStatusIdempotent | frontend/src/routes/admin/applications.tsx:31-37 | Applying the same status change twice is applying it once. |
| ApplicationsPage.RemoveById | frontend/src/routes/admin/applications.tsx:51 | Keeps exactly the rows with another id, in their order. |
| ApplicationsPage.RemoveByIdCount | frontend/src/routes/admin/applications.tsx:51 | With unique ids a delete removes one row when the id is listed and none otherwise. |
| ApplicationsPage.ApplicationsPage.SetFilterType | frontend/src/routes/admin/applications.tsx:87 | The type select takes the chosen value and nothing else changes. |
| ApplicationsPage.ApplicationsPage.SetFilterStatus | frontend/src/routes/admin/applications.tsx:96 | The status select takes the chosen value and nothing else changes. |
| ApplicationsPage.ApplicationsPage.Visible | frontend/src/routes/admin/applications.tsx:20 | The shown rows are a subsequence of the page's rows. |
| ApplicationsPage.ListedApplicationsUnique | backend/src/routes/admin.ts:80-111 | With unique application ids in the table, the rows of `GET /admin/applications` have pairwise distinct ids whatever the filters. |
| ApplicationsPage.ApplicationsPage.constructor | frontend/src/routes/admin/applications.tsx:14-18 | Given loaded rows with distinct ids, which is what the server's list has, the page starts valid, with the loaded rows, no filter and no selection, and shows every row. |
| ApplicationsPage.ApplicationsPage.HandleStatusChange | frontend/src/routes/admin/applications.tsx:28-44 | When the server call fails nothing changes. Otherwise the rows with that id get the status, and the selected row is updated iff it is the changed one. Ids stay unique. |
| ApplicationsPage.ApplicationsPage.HandleDelete | frontend/src/routes/admin/applications.tsx:46-58 | Unconfirmed or failed: nothing changes. Otherwise the rows with that id are removed, and the selection is cleared iff it was the deleted row. |
| JobsPage.SetField | frontend/src/routes/admin/jobs.tsx:97-100 | The named control takes the value and every other control keeps its own. |
| JobsPage.SetFieldToItsValue | frontend/src/routes/admin/jobs.tsx:99 | Writing a control's own value back leaves the form unchanged. |
| JobsPage.CreateFromForm | frontend/src/routes/admin/jobs.tsx:110 | A form is accepted by the create route iff its type and status are enum literals and no text overflows its column. The created job prefills back to the form with its texts as their columns keep them, and to the very same form when they fit. |
| JobsPage.NewFormCreatesDraft | frontend/src/routes/admin/jobs.tsx:39-49 | The new-job form creates a full-time draft, while the database's default status is open. |
| JobsPage.Prefill | frontend/src/routes/admin/jobs.tsx:60-70 | The prefilled selects parse back to the job's type and status, and the text controls hold the job's title, department, location and description. |
| JobsPage.SavingUntouchedPrefill | frontend/src/routes/admin/jobs.tsx:60-70 | Saving an untouched edit form changes only updatedAt, except that null requirements, benefits and salary come back as "". |
| JobsPage.Toggled | frontend/src/routes/admin/jobs.tsx:134 | The toggle never yields draft, and yields closed exactly for an open job. |
| JobsPage.ToggleTwice | frontend/src/routes/admin/jobs.tsx:134 | Toggling an open or closed job twice restores it, and a draft goes to open and then closed. |
| JobsPage.ToggleBody | frontend/src/routes/admin/jobs.tsx:134-136 | The toggle body supplies only a status, which parses to the toggled status, so the server cannot refuse it. |
| JobsPage.ToggleOnServer | frontend/src/routes/admin/jobs.tsx:136 | The server answers the toggle body with the same job, its status toggled and its timestamp fresh. |
| JobsPage.ReplaceById | frontend/src/routes/admin/jobs.tsx:108 | `prev.map(...)` keeps the list's length. |
| JobsPage.ReplaceByIdKeepsIds | frontend/src/routes/admin/jobs.tsx:108 | Replacing keeps every id in place and keeps ids unique. The reply is listed afterwards iff its id was listed. |
| JobsPage.ReplaceUnlistedIsNoOp | frontend/src/routes/admin/jobs.tsx:137 | A reply with an unlisted id leaves the list unchanged. |
| JobsPage.ToggleUpdatesOneEntry | frontend/src/routes/admin/jobs.tsx:133-141 | Toggling the k-th job, as the server answers it, changes that entry's status and timestamp and nothing else. |
| JobsPage.JobsPage.constructor | frontend/src/routes/admin/jobs.tsx:24-49 | The page starts with the loaded jobs, the empty form, no edited job and the modal closed. |
| JobsPage.JobsPage.OpenFromSearch | frontend/src/routes/admin/jobs.tsx:51-74 | "new" opens the empty form. A listed `editId` opens the form prefilled from the loader's row with that id. Anything else changes nothing. |
| JobsPage.JobsPage.CloseModal | frontend/src/routes/admin/jobs.tsx:90-95 | Closes the modal, clears the edited job and resets the form. |
| JobsPage.JobsPage.HandleInputChange | frontend/src/routes/admin/jobs.tsx:97-100 | Only the named control changes, and it takes the value. |
| JobsPage.JobsPage.HandleSubmit | frontend/src/routes/admin/jobs.tsx:102-120 | On success an edit replaces the job with the reply's id, a create prepends the reply, and the modal closes. On failure the list, the form and the modal stay. isSubmitting ends false either way. |
| JobsPage.JobsPage.HandleDelete | frontend/src/routes/admin/jobs.tsx:122-131 | A confirmed, successful delete keeps exactly the jobs with another id. Otherwise the list is unchanged. |
| JobsPage.JobsPage.HandleStatusToggle | frontend/src/routes/admin/jobs.tsx:133-141 | The reply is the row of the toggled job's id. On success the list entry with that id becomes the reply, and the reply is listed iff the job was. On failure nothing changes. |
| JobsPage.EditLooksUpLoaderRows | frontend/src/routes/admin/jobs.tsx:57 | For one snapshot of the loader's rows, a job created on the page is in the page's list but is not found among those rows, which `editId` searches. A reload of the loader would produce a new snapshot. |
| AdminNav.IsActive | frontend/src/routes/admin.tsx:17-22 | With `exact` an entry is active iff the path equals the pathname. Without it, iff the pathname starts with the path. |
| AdminNav.ExactImpliesPrefix | frontend/src/routes/admin.tsx:17-22 | An entry active on the exact path is active as a prefix too. |
| AdminNav.LongerPathStaysActive | frontend/src/routes/admin.tsx:21 | A prefix-active entry stays active on every longer path. |
| AdminNav.ActiveOnJobsPage | frontend/src/routes/admin.tsx:11-15 | On "/admin/jobs" only "Jobs" is active. Only its exact flag keeps "Dashboard" inactive. |
| AdminNav.ActiveOnDashboard | frontend/src/routes/admin.tsx:11-15 | On "/admin" only "Dashboard" is active. |

## Left out

- Identifiers are any strings, compared verbatim. A route given an id that is not a uuid answers 500 (Postgres rejects the cast), where the model answers 404 or proceeds. Job ids in an application form behave the same way.
- Postgres also reads a uuid written in upper case, in braces or without hyphens as the same uuid and finds the row, where the model compares strings and answers 404.
- Store.JobBoard.SubmitApplication: does not model the 500 for a non-uuid `jobId`, which ends in the catch block and unlinks the file.
- Store.JobBoard.HandleAdmin: for the write routes the contract promises only the invariant and the 401 case. What each write does is stated on the method it dispatches to.
- Database errors other than the constraint violations modelled (connection loss and the like) are left out, except the single `insertFails` flag of `SubmitApplication`.
- PublicJobs.ListOpenJobs: says nothing about the order of jobs with equal `createdAt`, because SQL leaves it unspecified.
- Admin.AdminListJobs: says nothing about the order of jobs with equal `createdAt`, because SQL leaves it unspecified.
- Admin.ListApplications: says nothing about the order of applications with equal `createdAt`, because SQL leaves it unspecified.
- Timestamps are a counter, not wall-clock dates, and the ISO strings the frontend formats are not modelled.
- Submission.Extname: models Node's `path.extname` only for names without '/'. Multer passes the client's original name.
- JobSearch.FilteredJobs: `toLowerCase` and `toUpperCase` act on ASCII letters only. JavaScript's full Unicode case mapping, including mappings that change length, is not modelled.
- JobSearch.FormatJobTypeCharwise: upper-cases ASCII letters only.
- JobSearch.SortedDistinct: orders strings by code point, whereas JavaScript's `sort()` compares UTF-16 code units. The two orders differ only between characters beyond U+FFFF and those in U+E000–U+FFFF, and `Departments` and `JobTypes` inherit this.
- JSON bodies whose properties are not strings (numbers, objects), and extra keys such as `id` or `createdAt` in a PUT body, are not modelled. Bodies hold strings, null or nothing.
- Store.JobBoard.CreateJob: `POST /admin/jobs` passes the whole body to `values(...)`, so a body with its own `id`, `createdAt` or `updatedAt` would store those. The model always uses the generated id and the next tick.
- Store.JobBoard.SubmitApplication: requires a uuid whose file name is not yet stored. A colliding uuid would make multer overwrite an earlier résumé, and a later failure would unlink it.
- A PATCH `notes` value that is not a string is not modelled.
- Multer's streaming, its removal of a partially written file and the disk itself are a set of file names. Unlinking after a failure is modelled by the directory ending as it began.
- Express wiring, CORS, static file serving, the health route and `console` logging are left out.
- The frontend's `lib/api.ts` fetch wrappers are not part of this model. The pages take each call's outcome as a parameter.
- The mock-data fallback of the public loader is not part of this model.
- Navigation (`navigate`) and React rendering (badges, colours, date formatting) are left out.
- `seed.ts`, `Header.tsx`, the dashboard page and the public application page are not part of this model.
- JobsPage.JobsPage.HandleSubmit: the reply is a parameter, so the contract does not tie it to the backend's answer. `JobsPage.SavingUntouchedPrefill`, `JobsPage.CreateFromForm` and `JobsPage.ToggleUpdatesOneEntry` make that link for the requests the page sends.
