/** The parsed configuration file: the jobs, the cache and Kubernetes blocks,
    and the project-wide default engine. */
module Config {
  import opened Wrappers
  import opened Jobs
  import opened FileCache

  /** The S3 cache block; its settings are read only by the S3 backend. */
  datatype S3Cache = S3Cache(bucket: string, disabled: bool)

  /** The `cache` block; each backend is optional. */
  datatype CacheConfig = CacheConfig(s3: Option<S3Cache>, file: Option<FileCache>)

  /** The `kubernetes` block; its settings are read only by that backend. */
  datatype Kubernetes = Kubernetes(settings: map<string, string>)

  /** A configuration: `cache`, `kubernetes` and `engine` may be absent. */
  datatype Config = Config(jobs: seq<Job>, cache: Option<CacheConfig>,
                           kubernetes: Option<Kubernetes>, engine: Option<string>)

  /** Why a configuration is rejected: the named job failed its own check. */
  datatype ConfigError = JobInvalid(job: string, cause: string)

  /** A job's own check against an engine name: an error message, or none. */
  type JobCheck = (Job, string) -> Option<string>

  /** The configured default engine, or the empty string when none is set. */
  function GetEngine(c: Config): (r: string)
    ensures c.engine.Some? ==> r == c.engine.value
    ensures c.engine.None? ==> r == ""
  {
    if c.engine.Some? then c.engine.value else ""
  }

  /** The text of a rejection: it names the job, then gives the cause. */
  function Message(e: ConfigError): (r: string)
    ensures |r| == 23 + |e.job| + |e.cause|
    ensures r[..21] == "Error validating job " && r[21..21 + |e.job|] == e.job
    ensures r[|r| - |e.cause|..] == e.cause
  {
    "Error validating job " + e.job + ": " + e.cause
  }

  /** The first job of `jobs` failing `check` against `engine`. */
  function FirstInvalid(jobs: seq<Job>, engine: string, check: JobCheck): (r: Option<ConfigError>)
    ensures r.None? <==> forall i :: 0 <= i < |jobs| ==> check(jobs[i], engine).None?
    ensures r.Some? ==> exists i :: 0 <= i < |jobs| && check(jobs[i], engine).Some?
                                    && r.value == JobInvalid(jobs[i].name, check(jobs[i], engine).value)
                                    && forall k :: 0 <= k < i ==> check(jobs[k], engine).None?
  {
    if jobs == [] then None
    else
      match check(jobs[0], engine)
      case Some(cause) => Some(JobInvalid(jobs[0].name, cause))
      case None =>
        var r := FirstInvalid(jobs[1..], engine, check);
        assert forall i :: 1 <= i < |jobs| ==> jobs[1..][i - 1] == jobs[i];
        if r.Some? then
          var i :| 0 <= i < |jobs[1..]| && check(jobs[1..][i], engine).Some?
                   && r.value == JobInvalid(jobs[1..][i].name, check(jobs[1..][i], engine).value)
                   && forall k :: 0 <= k < i ==> check(jobs[1..][k], engine).None?;
          assert jobs[i + 1] == jobs[1..][i];
          r
        else r
  }

  /** `Validate`: checks every job, in order, against the configured default
      engine, and stops at the first failure. */
  function Validate(c: Config, check: JobCheck): (r: Option<ConfigError>)
    ensures r.None? <==> forall j :: j in c.jobs ==> check(j, GetEngine(c)).None?
    ensures r.Some? ==> exists i :: 0 <= i < |c.jobs| && check(c.jobs[i], GetEngine(c)).Some?
                                    && r.value == JobInvalid(c.jobs[i].name, check(c.jobs[i], GetEngine(c)).value)
                                    && forall k :: 0 <= k < i ==> check(c.jobs[k], GetEngine(c)).None?
  {
    FirstInvalid(c.jobs, GetEngine(c), check)
  }

  /** Only the configured default engine is handed to the job checks: checks
      that agree on it give the same verdict. */
  lemma ValidateUsesConfigEngine(c: Config, check1: JobCheck, check2: JobCheck)
    requires forall j :: j in c.jobs ==> check1(j, GetEngine(c)) == check2(j, GetEngine(c))
    ensures Validate(c, check1) == Validate(c, check2)
  {
    FirstInvalidAgree(c.jobs, GetEngine(c), check1, check2);
  }

  lemma {:induction false} FirstInvalidAgree(jobs: seq<Job>, engine: string, check1: JobCheck, check2: JobCheck)
    requires forall j :: j in jobs ==> check1(j, engine) == check2(j, engine)
    ensures FirstInvalid(jobs, engine, check1) == FirstInvalid(jobs, engine, check2)
  {
    if jobs != [] {
      assert jobs[0] in jobs;
      FirstInvalidAgree(jobs[1..], engine, check1, check2);
    }
  }

  /** The job named by a rejection belongs to the configuration. */
  lemma RejectionNamesAJob(c: Config, check: JobCheck)
    requires Validate(c, check).Some?
    ensures Validate(c, check).value.job in Names(c.jobs)
  {
    var i :| 0 <= i < |c.jobs| && Validate(c, check).value.job == c.jobs[i].name;
    assert c.jobs[i] in c.jobs;
  }
}
