/** The job entity as the scheduler sees it. */
module Jobs {

  /** One configured job. `deps` is empty when the job declares no dependencies
      (a nil and an empty list behave the same); `engine` is the job's own engine
      selector, the empty string when unset. The callback oracle receives the whole
      job, so attributes the core never inspects (image, shell, environment) are
      left to it. */
  datatype Job = Job(name: string, deps: seq<string>, service: bool, engine: string)

  /** The distinct names of a job list. */
  function Names(jobs: seq<Job>): set<string>
  {
    set j | j in jobs :: j.name
  }

  /** No two jobs of the list share a name. */
  predicate UniqueNames(jobs: seq<Job>)
  {
    forall i, k :: 0 <= i < k < |jobs| ==> jobs[i].name != jobs[k].name
  }
}
