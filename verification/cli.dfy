/** The pure parts of the `hone` command: reading the positional arguments,
    recognising the source-control "unknown commit" error, and the exit status. */
module Cli {
  import opened JobGraph
  import opened GraphOrder
  import opened Scheduler

  const DefaultPath := "Honefile"
  const DefaultTarget := "all"

  /** Which configuration file to read and which job to resolve. */
  datatype Invocation = Invocation(path: string, target: string)

  /** Reads the process arguments, program name first: one argument names the
      target, two name the file and the target, anything else keeps both
      defaults. */
  function ParseArgs(args: seq<string>): (r: Invocation)
    ensures |args| == 2 ==> r == Invocation(DefaultPath, args[1])
    ensures |args| == 3 ==> r == Invocation(args[1], args[2])
    ensures |args| != 2 && |args| != 3 ==> r == Invocation(DefaultPath, DefaultTarget)
  {
    if |args| == 2 then Invocation(DefaultPath, args[1])
    else if |args| == 3 then Invocation(args[1], args[2])
    else Invocation(DefaultPath, DefaultTarget)
  }

  /** The shortest argument list, after the program name, that asks for `inv`. */
  function CommandLine(inv: Invocation): (r: seq<string>)
    ensures |r| <= 2
    ensures r == [] <==> inv == Invocation(DefaultPath, DefaultTarget)
  {
    if inv.path != DefaultPath then [inv.path, inv.target]
    else if inv.target != DefaultTarget then [inv.target]
    else []
  }

  /** Every invocation can be asked for, and its shortest command line asks for
      exactly it. */
  lemma ParseArgsRoundTrip(program: string, inv: Invocation)
    ensures ParseArgs([program] + CommandLine(inv)) == inv
  {
  }

  /** The program name never matters. */
  lemma ParseArgsIgnoresProgram(args: seq<string>, program: string)
    requires |args| >= 1
    ensures ParseArgs(args) == ParseArgs([program] + args[1..])
  {
  }

  /** The text a source-control host answers with when the commit is unknown. */
  const CommitNotFound := "No commit found for SHA"

  /** `pat` occurs in `s` starting at `i`. */
  ghost predicate OccursAt(s: string, pat: string, i: int)
  {
    0 <= i && i + |pat| <= |s| && s[i..i + |pat|] == pat
  }

  /** Substring search. */
  function Contains(s: string, pat: string): (r: bool)
    ensures r <==> exists i :: OccursAt(s, pat, i)
    decreases |s|
  {
    if |s| < |pat| then
      assert forall i :: !OccursAt(s, pat, i);
      false
    else if s[..|pat|] == pat then
      assert OccursAt(s, pat, 0);
      true
    else
      var r := Contains(s[1..], pat);
      assert r ==> exists i :: OccursAt(s, pat, i) by {
        if r {
          var i :| OccursAt(s[1..], pat, i);
          assert OccursAt(s, pat, i + 1);
        }
      }
      assert (exists i :: OccursAt(s, pat, i)) ==> r by {
        if exists i :: OccursAt(s, pat, i) {
          var i :| OccursAt(s, pat, i);
          assert i != 0;
          assert OccursAt(s[1..], pat, i - 1);
        }
      }
      r
  }

  /** `isCommitNotFound`: the error's text mentions the unknown commit. */
  function IsCommitNotFound(message: string): (r: bool)
    ensures r <==> exists i :: OccursAt(message, CommitNotFound, i)
  {
    Contains(message, CommitNotFound)
  }

  /** The phrase is recognised wherever it sits in a longer message, and no
      message shorter than the phrase is. */
  lemma CommitNotFoundAnywhere(prefix: string, suffix: string, short: string)
    requires |short| < |CommitNotFound|
    ensures IsCommitNotFound(prefix + CommitNotFound + suffix)
    ensures !IsCommitNotFound(short)
  {
    var m := prefix + CommitNotFound + suffix;
    assert m[|prefix|..|prefix| + |CommitNotFound|] == CommitNotFound;
    assert OccursAt(m, CommitNotFound, |prefix|);
  }

  /** The status `hone` asks the process to exit with: the number of errors the
      resolution returned, which is zero when it returned none. */
  function RequestedExit(res: Resolution): (code: nat)
    ensures code == 0 <==> res.errors == multiset{}
  {
    |res.errors|
  }

  /** The status a parent process observes: only the low eight bits survive. */
  function Observed(code: nat): (s: nat)
    ensures s < 256
    ensures code < 256 ==> s == code
    ensures (code - s) % 256 == 0
  {
    code % 256
  }

  /** The exit status of `hone` as written. */
  function ExitStatus(res: Resolution): (s: nat)
    ensures s < 256
    ensures |res.errors| < 256 ==> s == |res.errors|
    ensures res.errors == multiset{} ==> s == 0
  {
    Observed(RequestedExit(res))
  }

  /** The exit status as evidently intended: the error count, held at 255 so that
      it never wraps round to success. */
  function ExitStatusIntended(res: Resolution): (s: nat)
    ensures s < 256
    ensures s == 0 <==> res.errors == multiset{}
    ensures |res.errors| < 256 ==> s == |res.errors|
  {
    if |res.errors| > 255 then 255 else |res.errors|
  }

  /** The two agree below 256 errors, and above only when the count happens to
      leave 255 in the low eight bits. */
  lemma ExitStatusAgreement(res: Resolution)
    ensures ExitStatus(res) == ExitStatusIntended(res) <==> |res.errors| < 256 || |res.errors| % 256 == 255
  {
  }

  /** As written, a failed run reports success exactly when the number of
      errors is a non-zero multiple of 256. */
  lemma ExitStatusFalseSuccess(res: Resolution)
    ensures ExitStatus(res) == 0 && res.errors != multiset{} <==> |res.errors| > 0 && |res.errors| % 256 == 0
  {
  }

  /** Exactly 256 failed jobs: the process reports success. */
  lemma ExitStatusWrapsExample()
    ensures var res := Resolution(multiset{}[Unorderable := 256], map[]);
            res.errors != multiset{} && ExitStatus(res) == 0 && ExitStatusIntended(res) == 255
  {
    var res := Resolution(multiset{}[Unorderable := 256], map[]);
    assert |res.errors| == 256;
  }

  /** Resolves the invocation's target and ends the process as written: the
      status is zero when every scheduled job succeeded, and also when the number
      of errors is a non-zero multiple of 256; an unknown target or a graph that
      cannot be ordered gives status one. */
  method ResolveAndExit(g: Graph, inv: Invocation, cb: Callback) returns (res: Resolution, status: nat)
    requires Valid(g)
    ensures status < 256
    ensures inv.target !in g.nodes ==> status == 1 && res.outcomes == map[]
    ensures inv.target in g.nodes && !Orderable(g) ==> status == 1 && res.outcomes == map[]
    ensures inv.target in g.nodes && Orderable(g) ==>
              (status == 0 <==> (forall n :: n in res.outcomes ==> res.outcomes[n] == Succeeded)
                                || |res.errors| % 256 == 0)
    ensures status == 0 ==> res.outcomes.Keys != {}
  {
    res := ResolveTarget(g, inv.target, cb);
    status := ExitStatus(res);
    if inv.target in g.nodes && Orderable(g) {
      assert IsPath(g, [inv.target]);
      assert inv.target in res.outcomes;
    }
  }

  /** Resolves the invocation's target and ends the process with the exit status
      as evidently intended: zero exactly when every scheduled job succeeded, and
      never zero when the target is unknown or the graph cannot be ordered. */
  method ResolveAndExitIntended(g: Graph, inv: Invocation, cb: Callback) returns (res: Resolution, status: nat)
    requires Valid(g)
    ensures status < 256
    ensures inv.target !in g.nodes ==> status == 1 && res.outcomes == map[]
    ensures inv.target in g.nodes && !Orderable(g) ==> status == 1 && res.outcomes == map[]
    ensures inv.target in g.nodes && Orderable(g) ==>
              (status == 0 <==> forall n :: n in res.outcomes ==> res.outcomes[n] == Succeeded)
    ensures status == 0 ==> res.outcomes.Keys != {}
  {
    res := ResolveTarget(g, inv.target, cb);
    status := ExitStatusIntended(res);
    if inv.target in g.nodes && Orderable(g) {
      assert IsPath(g, [inv.target]);
      assert inv.target in res.outcomes;
    }
  }
}
