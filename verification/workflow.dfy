/**
  The workflow walker: from the parsed workflow document to the map of
  replacements, following jobs -> each job -> steps -> each step's "uses".

  The document is the generic tree the YAML decoder produces. The resolver
  (suggestMajorUpgrade with its network and version-parsing oracles fixed) is
  a parameter: it maps a `uses` string to a suggestion ("" for none) or an
  error.
*/
module Workflow {
  import opened Wrappers
  import opened Errors

  /** A decoded YAML node: a mapping with string keys, a sequence, a string, or anything else (null, numbers, booleans, ...). */
  datatype Value =
    | VMap(entries: map<string, Value>)
    | VSeq(items: seq<Value>)
    | VStr(text: string)
    | VOther

  /** A string field of a step: its text when present and a string, "" otherwise. */
  function StringField(m: map<string, Value>, key: string): (r: string)
    ensures r != "" ==> key in m && m[key] == VStr(r)
    ensures key in m && m[key].VStr? ==> r == m[key].text
  {
    if key in m && m[key].VStr? then m[key].text else ""
  }

  /** The "uses" of a step, "" for a step that is not a mapping. */
  function StepUses(step: Value): string
  {
    if step.VMap? then StringField(step.entries, "uses") else ""
  }

  /** The job is a mapping whose "steps" is a sequence. */
  predicate HasSteps(job: Value)
  {
    job.VMap? && "steps" in job.entries && job.entries["steps"].VSeq?
  }

  /** The `uses` strings of a run of steps. */
  function UsesOf(steps: seq<Value>): set<string>
  {
    set i | 0 <= i < |steps| :: StepUses(steps[i])
  }

  /** The `uses` strings of a job's steps (none for a job without steps). */
  function JobUses(job: Value): set<string>
  {
    if HasSteps(job) then UsesOf(job.entries["steps"].items) else {}
  }

  /** A reference the resolver answers with a suggestion. */
  predicate Suggests(resolve: string -> Result<string, Error>, uses: string)
  {
    uses != "" && resolve(uses).Ok? && resolve(uses).value != ""
  }

  /** A step the walk gets past: a mapping whose non-empty `uses` resolves without error. */
  predicate StepSucceeds(step: Value, resolve: string -> Result<string, Error>)
  {
    step.VMap? && (StepUses(step) != "" ==> resolve(StepUses(step)).Ok?)
  }

  predicate JobSucceeds(job: Value, resolve: string -> Result<string, Error>)
  {
    HasSteps(job) && forall i :: 0 <= i < |job.entries["steps"].items| ==> StepSucceeds(job.entries["steps"].items[i], resolve)
  }

  predicate HasJobs(workflow: map<string, Value>)
  {
    "jobs" in workflow && workflow["jobs"].VMap?
  }

  /** The walk of a whole workflow ends without error. */
  predicate WalkSucceeds(workflow: map<string, Value>, resolve: string -> Result<string, Error>)
  {
    HasJobs(workflow) && forall name :: name in workflow["jobs"].entries ==> JobSucceeds(workflow["jobs"].entries[name], resolve)
  }

  /** The `uses` strings of the named jobs. */
  function UsesOfJobs(jobs: map<string, Value>, names: set<string>): set<string>
  {
    set name, u | name in names && name in jobs && u in JobUses(jobs[name]) :: u
  }

  function WorkflowUses(workflow: map<string, Value>): set<string>
  {
    if HasJobs(workflow) then UsesOfJobs(workflow["jobs"].entries, workflow["jobs"].entries.Keys) else {}
  }

  /** The replacement map a set of references yields: each one with a suggestion, mapped to it. */
  function Replacements(uses: set<string>, resolve: string -> Result<string, Error>): map<string, string>
  {
    map u | u in uses && Suggests(resolve, u) :: resolve(u).value
  }

  lemma UsesOfExtend(steps: seq<Value>, i: nat)
    requires i < |steps|
    ensures UsesOf(steps[..i + 1]) == UsesOf(steps[..i]) + {StepUses(steps[i])}
  {
    var a := steps[..i];
    var b := steps[..i + 1];
    forall u | u in UsesOf(b)
      ensures u in UsesOf(a) + {StepUses(steps[i])}
    {
      var j :| 0 <= j < |b| && StepUses(b[j]) == u;
      if j < i {
        assert a[j] == b[j];
      }
    }
    forall u | u in UsesOf(a)
      ensures u in UsesOf(b)
    {
      var j :| 0 <= j < |a| && StepUses(a[j]) == u;
      assert b[j] == a[j];
    }
    assert b[i] == steps[i];
  }

  /**
    processJob: walk one job's steps in order. The job must be a mapping with
    a "steps" sequence of mappings; each non-empty `uses` goes to the
    resolver, whose first error ends the walk, and each suggestion is
    recorded under its `uses`.
  */
  method ProcessJob(jobName: string, job: Value, resolve: string -> Result<string, Error>)
    returns (r: Result<map<string, string>, Error>)
    ensures !job.VMap? ==> r == Err(JobNotMap(jobName))
    ensures job.VMap? && !HasSteps(job) ==> r == Err(StepsNotList(jobName))
    ensures r.Ok? <==> JobSucceeds(job, resolve)
    ensures r.Ok? ==> r.value == Replacements(JobUses(job), resolve)
  {
    if !job.VMap? {
      return Err(JobNotMap(jobName));
    }
    var jobMap := job.entries;
    if !("steps" in jobMap && jobMap["steps"].VSeq?) {
      return Err(StepsNotList(jobName));
    }
    var steps := jobMap["steps"].items;
    var replacements: map<string, string> := map[];
    for i := 0 to |steps|
      invariant forall j :: 0 <= j < i ==> StepSucceeds(steps[j], resolve)
      invariant forall u :: u in replacements <==> u in UsesOf(steps[..i]) && Suggests(resolve, u)
      invariant forall u :: u in replacements ==> replacements[u] == resolve(u).value
    {
      UsesOfExtend(steps, i);
      var step := steps[i];
      if !step.VMap? {
        return Err(StepNotMap(jobName));
      }
      var uses := StringField(step.entries, "uses");
      if |uses| > 0 {
        var newVer := resolve(uses);
        if newVer.Err? {
          return Err(newVer.error);
        } else if newVer.value != "" {
          replacements := replacements[uses := newVer.value];
        }
      }
    }
    assert steps[..|steps|] == steps;
    return Ok(replacements);
  }

  /**
    processJobs: walk every job, in whatever order the map yields them, and
    merge their replacements. The walk fails when "jobs" is missing or not a
    mapping, or when any job fails; otherwise the result does not depend on
    the order: it maps every `uses` of every step that has a suggestion to
    that suggestion.
  */
  method ProcessJobs(workflow: map<string, Value>, resolve: string -> Result<string, Error>)
    returns (r: Result<map<string, string>, Error>)
    ensures !HasJobs(workflow) ==> r == Err(JobsNotFound)
    ensures r.Ok? <==> WalkSucceeds(workflow, resolve)
    ensures r.Ok? ==> r.value == Replacements(WorkflowUses(workflow), resolve)
  {
    if !("jobs" in workflow && workflow["jobs"].VMap?) {
      return Err(JobsNotFound);
    }
    var jobs := workflow["jobs"].entries;
    var replace: map<string, string> := map[];
    var done: set<string> := {};
    while done != jobs.Keys
      invariant done <= jobs.Keys
      invariant forall name :: name in done ==> JobSucceeds(jobs[name], resolve)
      invariant forall u :: u in replace <==> u in UsesOfJobs(jobs, done) && Suggests(resolve, u)
      invariant forall u :: u in replace ==> replace[u] == resolve(u).value
      decreases jobs.Keys - done
    {
      assert jobs.Keys - done != {};
      var jobName :| jobName in jobs.Keys - done;
      var jobReplacements := ProcessJob(jobName, jobs[jobName], resolve);
      if jobReplacements.Err? {
        return Err(jobReplacements.error);
      }
      replace := MergeInto(replace, jobReplacements.value);
      UsesOfJobsAdd(jobs, done, jobName);
      done := done + {jobName};
    }
    return Ok(replace);
  }

  /** Copying every entry of `found` into `replace`: the entries of `found` win on shared keys. */
  method MergeInto(replace: map<string, string>, found: map<string, string>) returns (merged: map<string, string>)
    ensures merged == replace + found
  {
    merged := replace;
    var pending := found.Keys;
    while pending != {}
      invariant pending <= found.Keys
      invariant forall u :: u in merged <==> u in replace || u in found.Keys - pending
      invariant forall u :: u in merged ==> merged[u] == if u in found.Keys - pending then found[u] else replace[u]
      decreases pending
    {
      var k :| k in pending;
      merged := merged[k := found[k]];
      pending := pending - {k};
    }
  }

  /**
    An empty `uses` is never resolved: two resolvers that agree on every
    non-empty reference give the same verdict and the same replacements.
  */
  lemma EmptyUsesNeverResolved(workflow: map<string, Value>, r1: string -> Result<string, Error>, r2: string -> Result<string, Error>)
    requires forall u :: u != "" ==> r1(u) == r2(u)
    ensures WalkSucceeds(workflow, r1) <==> WalkSucceeds(workflow, r2)
    ensures Replacements(WorkflowUses(workflow), r1) == Replacements(WorkflowUses(workflow), r2)
  {
    if HasJobs(workflow) {
      var jobs := workflow["jobs"].entries;
      forall name | name in jobs
        ensures JobSucceeds(jobs[name], r1) <==> JobSucceeds(jobs[name], r2)
      {
        if HasSteps(jobs[name]) {
          var steps := jobs[name].entries["steps"].items;
          forall i | 0 <= i < |steps|
            ensures StepSucceeds(steps[i], r1) <==> StepSucceeds(steps[i], r2)
          {
          }
        }
      }
    }
  }

  lemma UsesOfJobsAdd(jobs: map<string, Value>, names: set<string>, name: string)
    requires name in jobs
    ensures UsesOfJobs(jobs, names + {name}) == UsesOfJobs(jobs, names) + JobUses(jobs[name])
  {
  }
}
