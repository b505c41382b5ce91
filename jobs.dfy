/** The public, read-only job endpoints: the list of open positions and
    the detail of one job. */
module PublicJobs {
  import opened Outcomes
  import opened Lists
  import opened Schema

  function IsOpen(j: Job): bool { j.status == Open }

  function CreatedKey(j: Job): int { j.createdAt }

  /** `GET /jobs`: the open jobs, oldest posting first. */
  function ListOpenJobs(jobs: seq<Job>): (r: seq<Job>)
    ensures forall j :: j in r <==> j in jobs && j.status == Open
    ensures multiset(r) == multiset(Filter(jobs, IsOpen))
    ensures forall i, k :: 0 <= i < k < |r| ==> r[i].createdAt <= r[k].createdAt
  {
    var open := Filter(jobs, IsOpen);
    var r := SortBy(open, CreatedKey);
    assert forall j :: j in r <==> j in open by {
      forall j ensures j in r <==> j in open {
        SortByMembership(open, CreatedKey, j);
      }
    }
    r
  }

  /** `GET /jobs/:id`: the job with that id, whatever its status, or 404. */
  function GetJob(jobs: seq<Job>, id: string): (r: Reply<Job>)
    ensures r.Done? ==> r.value in jobs && r.value.id == id
    ensures r.Failed? <==> !HasJob(jobs, id)
    ensures r.Failed? ==> r.failure == NotFound
  {
    match JobById(jobs, id)
    case Some(j) => Done(j)
    case None => Failed(NotFound)
  }

  /** A closed or draft job is missing from the public list but its detail
      page still resolves by id. */
  lemma DetailShowsUnlistedJobs(jobs: seq<Job>, k: nat)
    requires JobIdsUnique(jobs) && k < |jobs| && jobs[k].status != Open
    ensures jobs[k] !in ListOpenJobs(jobs)
    ensures GetJob(jobs, jobs[k].id) == Done(jobs[k])
  {
    JobByIdFindsTheRow(jobs, k);
  }
}
