/** A request: the ordered list of jobs (install, remove, update) handed to the solver. */
module Requests {
  import opened Requirements

  datatype JobType = Install | Remove | Update

  /** `_Job`: a requirement and what to do with it. */
  datatype Job = Job(requirement: Requirement, kind: JobType)

  class Request {
    var jobs: seq<Job>

    /** A new request has no jobs. */
    constructor ()
      ensures jobs == []
    {
      jobs := [];
    }

    method Install(requirement: Requirement)
      modifies this
      ensures jobs == old(jobs) + [Job(requirement, JobType.Install)]
    {
      AddJob(requirement, JobType.Install);
    }

    method Remove(requirement: Requirement)
      modifies this
      ensures jobs == old(jobs) + [Job(requirement, JobType.Remove)]
    {
      AddJob(requirement, JobType.Remove);
    }

    method Update(requirement: Requirement)
      modifies this
      ensures jobs == old(jobs) + [Job(requirement, JobType.Update)]
    {
      AddJob(requirement, JobType.Update);
    }

    /** `_add_job`: exactly one job, at the end, earlier jobs untouched. */
    method AddJob(requirement: Requirement, kind: JobType)
      modifies this
      ensures jobs == old(jobs) + [Job(requirement, kind)]
    {
      jobs := jobs + [Job(requirement, kind)];
    }
  }

  /**
   * A request built by calling `install`, `remove` or `update` once per
   * job holds exactly those jobs, in call order, with their kinds.
   */
  method RequestOfCalls(calls: seq<Job>) returns (request: Request)
    ensures fresh(request)
    ensures request.jobs == calls
  {
    request := new Request();
    for i := 0 to |calls|
      invariant request.jobs == calls[..i]
    {
      var job := calls[i];
      match job.kind {
        case Install => request.Install(job.requirement);
        case Remove => request.Remove(job.requirement);
        case Update => request.Update(job.requirement);
      }
      assert calls[..i + 1] == calls[..i] + [job];
    }
    assert calls[..|calls|] == calls;
  }
}
