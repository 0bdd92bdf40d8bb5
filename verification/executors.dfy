/** Choosing the backend that runs a job from the job's engine name, falling
    back to the configured default. */
module Executors {
  import opened Wrappers
  import opened Jobs
  import opened Config

  /** The backends a job can run on; Kubernetes carries the block it runs with. */
  datatype Backend = Docker | Local | KubernetesBackend(settings: Kubernetes)

  /** Why no backend is chosen. `NilDereference` stands for the run-time panic
      of reading through an absent block. */
  datatype EngineError = S3Required | NilDereference(block: string)

  /** The zero-valued Kubernetes block. */
  const ZeroKubernetes := Kubernetes(map[])

  function ErrorMessage(e: EngineError): string
  {
    match e
    case S3Required => "Kubernetes is not currently supported without an S3 configuration."
    case NilDereference(block) => "invalid memory address or nil pointer dereference: " + block
  }

  /** The engine name in force for `j`: its own when set, else the default. */
  function EngineFor(c: Config, j: Job): (r: string)
    ensures j.engine != "" ==> r == j.engine
    ensures j.engine == "" ==> r == GetEngine(c)
  {
    if j.engine == "" then GetEngine(c) else j.engine
  }

  /** `ChooseEngine` as written: on the Kubernetes path an absent Kubernetes
      block is read through, and a present one is replaced by the zero block. */
  function ChooseEngine(c: Config, j: Job): (r: Result<Backend, EngineError>)
    ensures r.Failure? ==> EngineFor(c, j) == "kubernetes"
    ensures r == Success(Local) <==> EngineFor(c, j) == "local"
    ensures r == Success(Docker) <==> EngineFor(c, j) != "kubernetes" && EngineFor(c, j) != "local"
    ensures r == Failure(S3Required) <==>
              EngineFor(c, j) == "kubernetes" && c.cache.Some? && c.cache.value.s3.None?
    ensures r.Success? && r.value.KubernetesBackend? ==> r.value.settings == ZeroKubernetes
    ensures EngineFor(c, j) == "kubernetes" && c.kubernetes.None? ==> r.Failure?
    ensures EngineFor(c, j) == "kubernetes" ==>
              (r.Failure? <==> c.cache.None? || c.cache.value.s3.None? || c.kubernetes.None?)
    ensures EngineFor(c, j) == "kubernetes" && r.Success? ==> r == Success(KubernetesBackend(ZeroKubernetes))
    ensures EngineFor(c, j) == "kubernetes" && c.cache.None? ==> r == Failure(NilDereference("cache"))
  {
    var engine := EngineFor(c, j);
    if engine == "kubernetes" then
      if c.cache.None? then Failure(NilDereference("cache"))
      else if c.cache.value.s3.None? then Failure(S3Required)
      else if c.kubernetes.None? then Failure(NilDereference("kubernetes"))
      else Success(KubernetesBackend(ZeroKubernetes))
    else if engine == "local" then Success(Local)
    else Success(Docker)
  }

  /** `ChooseEngine` with the Kubernetes nil check the right way round: the
      configured block is used, and the zero block only when none is given. */
  function ChooseEngineIntended(c: Config, j: Job): (r: Result<Backend, EngineError>)
    ensures r.Failure? <==>
              EngineFor(c, j) == "kubernetes" && (c.cache.None? || c.cache.value.s3.None?)
    ensures r.Success? && r.value.KubernetesBackend? ==>
              r.value.settings == (if c.kubernetes.Some? then c.kubernetes.value else ZeroKubernetes)
    ensures r == Success(Local) <==> EngineFor(c, j) == "local"
    ensures r == Success(Docker) <==> EngineFor(c, j) != "kubernetes" && EngineFor(c, j) != "local"
  {
    var engine := EngineFor(c, j);
    if engine == "kubernetes" then
      if c.cache.None? then Failure(NilDereference("cache"))
      else if c.cache.value.s3.None? then Failure(S3Required)
      else Success(KubernetesBackend(if c.kubernetes.Some? then c.kubernetes.value else ZeroKubernetes))
    else if engine == "local" then Success(Local)
    else Success(Docker)
  }

  /** Off the Kubernetes path the two versions choose the same backend; on it
      they agree exactly when a zero Kubernetes block is configured, or the S3
      cache is missing. */
  lemma ChooseEngineAgreement(c: Config, j: Job)
    ensures ChooseEngine(c, j) == ChooseEngineIntended(c, j) <==>
              || EngineFor(c, j) != "kubernetes"
              || c.cache.None? || c.cache.value.s3.None?
              || c.kubernetes == Some(ZeroKubernetes)
  {
  }

  /** A job's own engine wins: the configured default then does not matter. */
  lemma JobEngineWins(c: Config, j: Job, default: Option<string>)
    requires j.engine != ""
    ensures ChooseEngine(c, j) == ChooseEngine(c.(engine := default), j)
  {
  }

  /** A job without an engine runs where the default engine says. */
  lemma DefaultEngineApplies(c: Config, j: Job)
    requires j.engine == ""
    ensures ChooseEngine(c, j) == ChooseEngine(c, j.(engine := GetEngine(c)))
  {
  }

  /** With no engine named anywhere, jobs run on Docker. */
  lemma DockerByDefault(c: Config, j: Job)
    requires j.engine == "" && c.engine.None?
    ensures ChooseEngine(c, j) == Success(Docker)
  {
  }

  const KubernetesJob := Job("deploy", [], false, "kubernetes")
  const WithS3 := Some(CacheConfig(Some(S3Cache("artifacts", false)), None))

  /** S3 configured but no Kubernetes block: the as-written selection reads
      through the absent block, where the intended one uses the zero block. */
  lemma AbsentBlockExample()
    ensures var c := Config([KubernetesJob], WithS3, None, None);
            && ChooseEngine(c, KubernetesJob) == Failure(NilDereference("kubernetes"))
            && ChooseEngineIntended(c, KubernetesJob) == Success(KubernetesBackend(ZeroKubernetes))
  {
  }

  /** A configured Kubernetes block is dropped by the as-written selection. */
  lemma ConfiguredBlockExample()
    ensures var k := Kubernetes(map["namespace" := "ci"]);
            var c := Config([KubernetesJob], WithS3, Some(k), None);
            && ChooseEngine(c, KubernetesJob) == Success(KubernetesBackend(ZeroKubernetes))
            && ChooseEngineIntended(c, KubernetesJob) == Success(KubernetesBackend(k))
  {
  }
}
