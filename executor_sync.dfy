/** The sequential executor: it runs the hooks it is given one after another, in the order given,
    without looking at their dependencies, and always reports a result. */
module ExecutorSync {
  import opened Core
  import opened Command

  /** `results.iter().all(|r| r.success)`, computed by a loop. */
  method AllPassed(results: seq<HookResult>) returns (passed: bool)
    ensures passed <==> AllSucceeded(results)
  {
    passed := true;
    for k := 0 to |results|
      invariant passed <==> forall j :: 0 <= j < k ==> results[j].success
    {
      passed := passed && results[k].success;
    }
  }

  /** `SyncExecutor::execute`: run each hook in turn, collect the results in that order, and pass
      exactly when every hook succeeded. It never reports an error. */
  method Execute(hooks: seq<Hook>, files: seq<Path>, env: Env) returns (r: Result<ExecutionResult, PreCommitError>)
    ensures r.Ok?
    ensures r.value.hooks == RunAll(hooks, files, env)
    ensures r.value.allPassed <==> AllSucceeded(r.value.hooks)
  {
    var results: seq<HookResult> := [];
    for k := 0 to |hooks|
      invariant results == RunAll(hooks[..k], files, env)
    {
      var result := ExecuteHook(hooks[k], files, env);
      RunAllSnoc(hooks, k, files, env);
      results := results + [result];
    }
    assert hooks[..|hooks|] == hooks;
    var allPassed := AllPassed(results);
    return Ok(ExecutionResult(results, allPassed));
  }

  /** A run passes exactly when every hook's program ran and exited with code 0; one hook that
      did not fails the run. */
  lemma PassedIffAllExitZero(hooks: seq<Hook>, files: seq<Path>, env: Env)
    ensures AllSucceeded(RunAll(hooks, files, env)) <==>
      forall k :: 0 <= k < |hooks| ==> RunOne(hooks[k], files, env).exitCode == Some(0)
  {
    var rs := RunAll(hooks, files, env);
    if AllSucceeded(rs) {
      forall k | 0 <= k < |hooks|
        ensures RunOne(hooks[k], files, env).exitCode == Some(0)
      {
        assert rs[k].success;
      }
    }
  }

  /** The sequential run reports one result per hook, in hook order, each carrying that hook's id. */
  lemma ResultsFollowHookOrder(hooks: seq<Hook>, files: seq<Path>, env: Env)
    ensures |RunAll(hooks, files, env)| == |hooks|
    ensures forall k :: 0 <= k < |hooks| ==> RunAll(hooks, files, env)[k].hookId == hooks[k].id
  {
  }
}
