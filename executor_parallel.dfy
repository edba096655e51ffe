/** The level-parallel executor: levels run one after another; the hooks of a level are started
    together and their results are collected in the level's own order. A failure does not stop
    later levels. */
module ExecutorParallel {
  import opened Seqs
  import opened Core
  import opened Command
  import ExecutorSync

  /** The executor holds the plan it was built with. */
  datatype ParallelExecutor = ParallelExecutor(plan: ExecutionPlan)
  {
    /** `execute_async`: run each level in turn and append its results; pass exactly when every
        hook of every level succeeded. It never reports an error. A level's results are
        `execute_level`, which `join_all` hands back in the level's own order whatever order the
        hooks finish in: that is `RunAll` of the level. */
    method ExecuteAsync(files: seq<Path>, env: Env) returns (r: Result<ExecutionResult, PreCommitError>)
      ensures r.Ok?
      ensures r.value.hooks == RunAll(plan.Sequential(), files, env)
      ensures r.value.allPassed <==> AllSucceeded(r.value.hooks)
    {
      var levels := plan.levels;
      var allResults: seq<HookResult> := [];
      for i := 0 to |levels|
        invariant allResults == RunAll(Flatten(levels[..i]), files, env)
      {
        var levelResults := RunAll(levels[i], files, env);
        RunLevelsSnoc(levels, i, files, env);
        allResults := allResults + levelResults;
      }
      assert levels[..|levels|] == levels;
      var allPassed := ExecutorSync.AllPassed(allResults);
      return Ok(ExecutionResult(allResults, allPassed));
    }

    /** `Executor::execute`: the hooks handed in are ignored; the plan decides what runs. */
    method Execute(hooks: seq<Hook>, files: seq<Path>, env: Env) returns (r: Result<ExecutionResult, PreCommitError>)
      ensures r.Ok?
      ensures r.value.hooks == RunAll(plan.Sequential(), files, env)
      ensures r.value.allPassed <==> AllSucceeded(r.value.hooks)
    {
      r := ExecuteAsync(files, env);
    }
  }

  /** Running one more level appends that level's results. */
  lemma RunLevelsSnoc(levels: seq<seq<Hook>>, i: nat, files: seq<Path>, env: Env)
    requires i < |levels|
    ensures RunAll(Flatten(levels[..i + 1]), files, env)
      == RunAll(Flatten(levels[..i]), files, env) + RunAll(levels[i], files, env)
  {
    FlattenSnoc(levels, i);
    RunAllAppend(Flatten(levels[..i]), levels[i], files, env);
  }

  /** The results of level `k` form one contiguous block of the run, after every earlier level's
      and before every later level's, and that block is exactly the level run on its own: a
      failing hook keeps no later level from running. */
  lemma LevelBlocks(plan: ExecutionPlan, files: seq<Path>, env: Env, k: nat)
    requires k < |plan.levels|
    ensures Offset(plan.levels, k) + |plan.levels[k]| == Offset(plan.levels, k + 1)
    ensures Offset(plan.levels, k + 1) <= |RunAll(plan.Sequential(), files, env)|
    ensures RunAll(plan.Sequential(), files, env)[Offset(plan.levels, k)..Offset(plan.levels, k + 1)]
      == RunAll(plan.levels[k], files, env)
  {
    var all := plan.Sequential();
    assert all == Flatten(plan.levels);
    FlattenSlice(plan.levels, k);
    RunAllSlice(all, Offset(plan.levels, k), Offset(plan.levels, k + 1), files, env);
  }

  /** The run passes exactly when every level, run on its own, passes. */
  lemma PassedIffEveryLevelPassed(plan: ExecutionPlan, files: seq<Path>, env: Env)
    ensures AllSucceeded(RunAll(plan.Sequential(), files, env)) <==>
      forall k :: 0 <= k < |plan.levels| ==> AllSucceeded(RunAll(plan.levels[k], files, env))
  {
    var all := RunAll(plan.Sequential(), files, env);
    if AllSucceeded(all) {
      forall k | 0 <= k < |plan.levels|
        ensures AllSucceeded(RunAll(plan.levels[k], files, env))
      {
        LevelBlocks(plan, files, env, k);
        var block := all[Offset(plan.levels, k)..Offset(plan.levels, k + 1)];
        assert forall j :: 0 <= j < |block| ==> block[j] == all[Offset(plan.levels, k) + j];
      }
    } else {
      var n :| 0 <= n < |all| && !all[n].success;
      var k, p := SequentialOrigin(plan, n);
      assert RunAll(plan.levels[k], files, env)[p] == all[n];
    }
  }
}
