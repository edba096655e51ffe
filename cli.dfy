/** The interactive front end's own bookkeeping: the status board shown while hooks run level by
    level (each hook `Pending`, then `Running`, then `Success` or `Failed`), the results gathered in
    the order the hooks finish, and the forward and reverse dependency maps behind the graph view.
    Drawing the board and the graph on the terminal is not part of the model. */
module Cli {
  import opened Seqs
  import opened Core
  import opened Command
  import ExecutorSync

  datatype HookStatus = Pending | Running | Success | Failed

  /** The board: one status per hook id. */
  type Statuses = map<string, HookStatus>

  /** Which of the hooks of level `l` still running finishes next at step `s` of that level: the
      result of `order(l, s)`, taken modulo the number of hooks still running and counted in the
      order they were started. It stands for the scheduler behind `FuturesUnordered`. */
  type CompletionOrder = (nat, nat) -> nat

  /** The status a finished hook is shown with. */
  function Verdict(r: HookResult): (s: HookStatus)
    ensures s == Success <==> r.success
    ensures s == Failed <==> !r.success
  {
    if r.success then Success else Failed
  }

  /** The board before any level has started: every hook is on it, as `Pending`. */
  function AllPending(hooks: seq<Hook>): (m: Statuses)
    ensures forall i :: 0 <= i < |hooks| ==> hooks[i].id in m && m[hooks[i].id] == Pending
  {
    map id | id in Ids(hooks) :: Pending
  }

  /** Before any level runs, every hook is on the board and every entry is `Pending`. */
  lemma AllPendingAt(hooks: seq<Hook>, id: string)
    ensures id in AllPending(hooks) <==> exists i :: 0 <= i < |hooks| && hooks[i].id == id
    ensures id in AllPending(hooks) ==> AllPending(hooks)[id] == Pending
  {
  }

  lemma IdsSnoc(hooks: seq<Hook>, i: nat)
    requires i < |hooks|
    ensures Ids(hooks[..i + 1]) == Ids(hooks[..i]) + {hooks[i].id}
  {
    assert hooks[..i + 1] == hooks[..i] + [hooks[i]];
  }

  /** The first loop of `execute_with_live_status`: every hook is put on the board as `Pending`. */
  method InitStatuses(hooks: seq<Hook>) returns (statuses: Statuses)
    ensures statuses == AllPending(hooks)
  {
    statuses := map[];
    for i := 0 to |hooks|
      invariant statuses == AllPending(hooks[..i])
    {
      IdsSnoc(hooks, i);
      statuses := statuses[hooks[i].id := Pending];
    }
    assert hooks[..|hooks|] == hooks;
  }

  /** The board after the hooks of `level` have been set to `Running`, one after the other: every
      hook of the level is on it as `Running`, and no entry is lost. */
  function MarkRunning(m: Statuses, level: seq<Hook>): (r: Statuses)
    ensures m.Keys <= r.Keys
    ensures forall k :: 0 <= k < |level| ==> level[k].id in r && r[level[k].id] == Running
  {
    if level == [] then m
    else
      var n := |level| - 1;
      assert forall k :: 0 <= k < n ==> level[..n][k] == level[k];
      MarkRunning(m, level[..n])[level[n].id := Running]
  }

  /** After the marking, every hook of the level is `Running`; every other entry is unchanged. */
  lemma {:induction false} MarkRunningAt(m: Statuses, level: seq<Hook>, id: string)
    ensures id in MarkRunning(m, level) <==> id in m || id in Ids(level)
    ensures id in MarkRunning(m, level) ==> MarkRunning(m, level)[id] == (if id in Ids(level) then Running else m[id])
  {
    if level != [] {
      var n := |level| - 1;
      MarkRunningAt(m, level[..n], id);
      IdsSnoc(level, n);
      assert level[..n + 1] == level;
    }
  }

  /** The start of a level: each of its hooks is set to `Running` (and its future started) before
      any result of the level is consumed; no other entry changes. */
  method StartLevel(statuses: Statuses, level: seq<Hook>) returns (s: Statuses)
    ensures s == MarkRunning(statuses, level)
  {
    s := statuses;
    for i := 0 to |level|
      invariant s == MarkRunning(statuses, level[..i])
    {
      assert level[..i + 1][..i] == level[..i];
      s := s[level[i].id := Running];
    }
    assert level[..|level|] == level;
  }

  /** The board after each result of `rs`, in order, has set its hook's status: every hook that
      reported shows a final status, never `Running`, and no entry is lost. */
  function Record(m: Statuses, rs: seq<HookResult>): (r: Statuses)
    ensures m.Keys <= r.Keys
    ensures forall k :: 0 <= k < |rs| ==> rs[k].hookId in r && r[rs[k].hookId] != Running
  {
    if rs == [] then m
    else
      var n := |rs| - 1;
      assert forall k :: 0 <= k < n ==> rs[..n][k] == rs[k];
      Record(m, rs[..n])[rs[n].hookId := Verdict(rs[n])]
  }

  /** The position of the last result in `rs` for hook `id`, if any. */
  function LastWith(rs: seq<HookResult>, id: string): (r: Option<nat>)
    ensures r.None? <==> forall k :: 0 <= k < |rs| ==> rs[k].hookId != id
    ensures r.Some? ==> r.value < |rs| && rs[r.value].hookId == id
    ensures r.Some? ==> forall k :: r.value < k < |rs| ==> rs[k].hookId != id
  {
    if rs == [] then None
    else if rs[|rs| - 1].hookId == id then Some(|rs| - 1)
    else LastWith(rs[..|rs| - 1], id)
  }

  /** After recording `rs`, a hook shows the verdict of its last result, and a hook with no result
      keeps the status it had; the board gains exactly the ids that reported. */
  lemma {:induction false} RecordAt(m: Statuses, rs: seq<HookResult>, id: string)
    ensures id in Record(m, rs) <==> id in m || LastWith(rs, id).Some?
    ensures id in Record(m, rs) ==>
      Record(m, rs)[id] == (if LastWith(rs, id).Some? then Verdict(rs[LastWith(rs, id).value]) else m[id])
  {
    if rs != [] {
      RecordAt(m, rs[..|rs| - 1], id);
    }
  }

  /** Recording two batches of results one after the other is recording their concatenation. */
  lemma {:induction false} RecordAppend(m: Statuses, a: seq<HookResult>, b: seq<HookResult>)
    ensures Record(m, a + b) == Record(Record(m, a), b)
  {
    if b == [] {
      assert a + b == a;
    } else {
      var n := |b| - 1;
      assert a + b == (a + b[..n]) + [b[n]] && b == b[..n] + [b[n]];
      RecordSnoc(m, a + b[..n], b[n]);
      RecordSnoc(Record(m, a), b[..n], b[n]);
      RecordAppend(m, a, b[..n]);
    }
  }

  /** Recording results never puts a hook back to `Running`. */
  lemma {:induction false} RecordNoRunning(m: Statuses, rs: seq<HookResult>)
    requires forall id :: id in m ==> m[id] != Running
    ensures forall id :: id in Record(m, rs) ==> Record(m, rs)[id] != Running
  {
    if rs != [] {
      RecordNoRunning(m, rs[..|rs| - 1]);
    }
  }

  /** The ids that some result of `rs` reports. */
  function Reported(rs: seq<HookResult>): set<string>
  {
    set k | 0 <= k < |rs| :: rs[k].hookId
  }

  /** Once every hook set to `Running` has reported, the `Running` marks have all been overwritten:
      the board is as if the level had never been marked. */
  lemma RunningOverwritten(m: Statuses, level: seq<Hook>, rs: seq<HookResult>)
    requires Ids(level) <= Reported(rs)
    ensures Record(MarkRunning(m, level), rs) == Record(m, rs)
  {
    var marked := MarkRunning(m, level);
    var a, b := Record(marked, rs), Record(m, rs);
    forall id | id in a || id in b
      ensures id in a && id in b && a[id] == b[id]
    {
      RecordAt(marked, rs, id);
      RecordAt(m, rs, id);
      MarkRunningAt(m, level, id);
      if LastWith(rs, id).None? {
        assert id !in Reported(rs);
      }
    }
    assert a.Keys == b.Keys;
  }

  /** Recording one more result sets that hook's status and changes nothing else. */
  lemma RecordSnoc(m: Statuses, rs: seq<HookResult>, x: HookResult)
    ensures Record(m, rs + [x]) == Record(m, rs)[x.hookId := Verdict(x)]
  {
    assert (rs + [x])[..|rs|] == rs;
  }

  /** `execute_hook_with_id`: run one hook and hand back its id beside its result. */
  method ExecuteHookWithId(hook: Hook, files: seq<Path>, env: Env) returns (id: string, result: HookResult)
    ensures id == hook.id && id == result.hookId
    ensures result == RunOne(hook, files, env)
  {
    id := hook.id;
    result := ExecuteHook(hook, files, env);
  }

  /** The completion loop of one level: take the results as the hooks finish, set each finished
      hook's status from its success, and append its result. Every hook of the level is already
      `Running` when the loop starts. The results are those of the level's hooks, each exactly
      once, in completion order. */
  method AwaitLevel(level: seq<Hook>, files: seq<Path>, env: Env, order: CompletionOrder, l: nat, statuses: Statuses)
    returns (results: seq<HookResult>, s: Statuses)
    requires forall h :: h in level ==> h.id in statuses && statuses[h.id] == Running
    ensures multiset(results) == multiset(RunAll(level, files, env))
    ensures s == Record(statuses, results)
  {
    var pending := level;
    results, s := [], statuses;
    var step := 0;
    while pending != []
      invariant multiset(results) + multiset(RunAll(pending, files, env)) == multiset(RunAll(level, files, env))
      invariant s == Record(statuses, results)
      decreases |pending|
    {
      var j := order(l, step) % |pending|;
      var id, result := ExecuteHookWithId(pending[j], files, env);
      s := s[id := Verdict(result)];
      RecordSnoc(statuses, results, result);
      results := results + [result];
      RunAllRemove(pending, j, files, env);
      pending := pending[..j] + pending[j + 1..];
      step := step + 1;
    }
  }

  /** One level of the live run: mark its hooks `Running`, then await its results. Once the level
      is over, the board is the one before it with the level's verdicts recorded. */
  method RunLevelLive(level: seq<Hook>, files: seq<Path>, env: Env, order: CompletionOrder, l: nat, statuses: Statuses)
    returns (results: seq<HookResult>, s: Statuses)
    ensures multiset(results) == multiset(RunAll(level, files, env))
    ensures s == Record(statuses, results)
  {
    var running := StartLevel(statuses, level);
    results, s := AwaitLevel(level, files, env, order, l, running);
    LevelReports(level, results, files, env);
    RunningOverwritten(statuses, level, results);
  }

  /** Every hook of a level reports among results that are a permutation of the level's. */
  lemma LevelReports(level: seq<Hook>, rs: seq<HookResult>, files: seq<Path>, env: Env)
    requires multiset(rs) == multiset(RunAll(level, files, env))
    ensures Ids(level) <= Reported(rs)
  {
    forall id | id in Ids(level)
      ensures id in Reported(rs)
    {
      var p :| 0 <= p < |level| && level[p].id == id;
      var x := RunAll(level, files, env)[p];
      assert x in multiset(RunAll(level, files, env));
      assert x in rs;
      var k :| 0 <= k < |rs| && rs[k] == x;
      assert rs[k].hookId == id;
    }
  }

  /** Levels whose results are each permuted give, concatenated, a permutation of the results of
      all hooks in plan order. */
  lemma {:induction false} LevelsPermuted(levels: seq<seq<Hook>>, blocks: seq<seq<HookResult>>, files: seq<Path>, env: Env)
    requires |blocks| == |levels|
    requires forall k :: 0 <= k < |levels| ==> multiset(blocks[k]) == multiset(RunAll(levels[k], files, env))
    ensures multiset(Flatten(blocks)) == multiset(RunAll(Flatten(levels), files, env))
  {
    if levels != [] {
      var n := |levels| - 1;
      LevelsPermuted(levels[..n], blocks[..n], files, env);
      RunAllAppend(Flatten(levels[..n]), levels[n], files, env);
    }
  }

  /** Every result succeeded in one order exactly when every result succeeded in another. */
  lemma PermutationKeepsVerdict(a: seq<HookResult>, b: seq<HookResult>)
    requires multiset(a) == multiset(b)
    ensures AllSucceeded(a) <==> AllSucceeded(b)
  {
    forall i | 0 <= i < |b| && AllSucceeded(a)
      ensures b[i].success
    {
      assert b[i] in multiset(b);
      var k :| 0 <= k < |a| && a[k] == b[i];
    }
    forall i | 0 <= i < |a| && AllSucceeded(b)
      ensures a[i].success
    {
      assert a[i] in multiset(a);
      var k :| 0 <= k < |b| && b[k] == a[i];
    }
  }

  /** `execute_with_live_status`: put every hook on the board as `Pending`; for each level in plan
      order, mark its hooks `Running`, then consume its results in completion order; finally pass
      exactly when every result succeeded. `statuses` is the board as last drawn and `blocks` the
      results of each level. Every hook of the plan reports once; a level's results are a
      permutation of its hooks' results and levels keep their order; the board shows each hook's
      last verdict and no hook is left `Running`. */
  method ExecuteWithLiveStatus(plan: ExecutionPlan, hooks: seq<Hook>, files: seq<Path>, env: Env, order: CompletionOrder)
    returns (r: Result<ExecutionResult, PreCommitError>, statuses: Statuses, ghost blocks: seq<seq<HookResult>>)
    ensures r.Ok?
    ensures |blocks| == |plan.levels| && r.value.hooks == Flatten(blocks)
    ensures forall k :: 0 <= k < |blocks| ==> multiset(blocks[k]) == multiset(RunAll(plan.levels[k], files, env))
    ensures multiset(r.value.hooks) == multiset(RunAll(plan.Sequential(), files, env))
    ensures r.value.allPassed <==> AllSucceeded(r.value.hooks)
    ensures r.value.allPassed <==> AllSucceeded(RunAll(plan.Sequential(), files, env))
    ensures statuses == Record(AllPending(hooks), r.value.hooks)
    ensures forall id :: id in statuses ==> statuses[id] != Running
  {
    statuses := InitStatuses(hooks);
    var allResults: seq<HookResult> := [];
    blocks := [];
    for i := 0 to |plan.levels|
      invariant |blocks| == i && allResults == Flatten(blocks)
      invariant forall k :: 0 <= k < i ==> multiset(blocks[k]) == multiset(RunAll(plan.levels[k], files, env))
      invariant statuses == Record(AllPending(hooks), allResults)
    {
      var levelResults, s := RunLevelLive(plan.levels[i], files, env, order, i, statuses);
      RecordAppend(AllPending(hooks), allResults, levelResults);
      assert (blocks + [levelResults])[..i] == blocks;
      statuses := s;
      allResults := allResults + levelResults;
      blocks := blocks + [levelResults];
    }
    LevelsPermuted(plan.levels, blocks, files, env);
    PermutationKeepsVerdict(allResults, RunAll(plan.Sequential(), files, env));
    RecordNoRunning(AllPending(hooks), allResults);
    var passed := ExecutorSync.AllPassed(allResults);
    r := Ok(ExecutionResult(allResults, passed));
  }

  /** Dependency lists keyed by hook id. */
  type Adjacency = map<string, seq<string>>

  /** `deps_map`: each hook's id mapped to its dependency list; a later hook with the same id
      replaces an earlier one. */
  function DepsMap(hooks: seq<Hook>): (m: Adjacency)
    ensures forall i :: 0 <= i < |hooks| ==> hooks[i].id in m
  {
    if hooks == [] then map[]
    else
      var n := |hooks| - 1;
      assert forall i :: 0 <= i < n ==> hooks[..n][i] == hooks[i];
      DepsMap(hooks[..n])[hooks[n].id := hooks[n].dependsOn]
  }

  /** `deps_map` has exactly the hook ids as keys. */
  lemma {:induction false} DepsMapKeys(hooks: seq<Hook>, id: string)
    ensures id in DepsMap(hooks) <==> exists i :: 0 <= i < |hooks| && hooks[i].id == id
  {
    if hooks != [] {
      var n := |hooks| - 1;
      DepsMapKeys(hooks[..n], id);
      if exists i :: 0 <= i < |hooks| && hooks[i].id == id {
        var i :| 0 <= i < |hooks| && hooks[i].id == id;
        if i < n {
          assert hooks[..n][i] == hooks[i];
        }
      }
    }
  }

  /** A hook's id maps to its own dependency list unless a later hook reuses the id. */
  lemma {:induction false} DepsMapAt(hooks: seq<Hook>, i: nat)
    requires i < |hooks|
    requires forall j :: i < j < |hooks| ==> hooks[j].id != hooks[i].id
    ensures hooks[i].id in DepsMap(hooks) && DepsMap(hooks)[hooks[i].id] == hooks[i].dependsOn
  {
    var n := |hooks| - 1;
    if i < n {
      DepsMapAt(hooks[..n], i);
    }
  }

  /** The entry for `key`, or the empty list when there is none (`entry(key).or_default()`). */
  function Lookup(m: Adjacency, key: string): seq<string>
  {
    if key in m then m[key] else []
  }

  /** For each dependency in `deps`, in order, append `id` to that dependency's entry, creating
      the entry when it is missing. */
  function PushDependent(m: Adjacency, deps: seq<string>, id: string): Adjacency
  {
    if deps == [] then m
    else
      var n := |deps| - 1;
      var before := PushDependent(m, deps[..n], id);
      before[deps[n] := Lookup(before, deps[n]) + [id]]
  }

  /** One pass of the `print_dag` loop over the reverse map: make sure the hook has an entry, then
      register it as a dependent of each of its dependencies. */
  function AddHook(m: Adjacency, hook: Hook): Adjacency
  {
    PushDependent(m[hook.id := Lookup(m, hook.id)], hook.dependsOn, hook.id)
  }

  /** `reverse_deps` after the loop over `hooks`: every hook has an entry, even one no hook
      depends on. */
  function ReverseDeps(hooks: seq<Hook>): (m: Adjacency)
    ensures forall i :: 0 <= i < |hooks| ==> hooks[i].id in m
  {
    if hooks == [] then map[]
    else
      var n := |hooks| - 1;
      assert forall i :: 0 <= i < n ==> hooks[..n][i] == hooks[i];
      AddHookGrows(ReverseDeps(hooks[..n]), hooks[n]);
      AddHook(ReverseDeps(hooks[..n]), hooks[n])
  }

  /** How often `key` occurs in `deps`. */
  function Count(deps: seq<string>, key: string): (c: nat)
    ensures c == 0 <==> key !in deps
    ensures c <= |deps|
  {
    if deps == [] then 0 else Count(deps[..|deps| - 1], key) + (if deps[|deps| - 1] == key then 1 else 0)
  }

  /** `c` copies of `x`. */
  function Repeat(c: nat, x: string): (r: seq<string>)
    ensures |r| == c
    ensures forall y :: y in r <==> c > 0 && y == x
  {
    if c == 0 then [] else Repeat(c - 1, x) + [x]
  }

  /** The hooks that depend on `key`, as a reference definition: in hook order, each hook's id
      once per occurrence of `key` in its dependency list. */
  function Dependents(hooks: seq<Hook>, key: string): seq<string>
  {
    if hooks == [] then []
    else
      var last := hooks[|hooks| - 1];
      Dependents(hooks[..|hooks| - 1], key) + Repeat(Count(last.dependsOn, key), last.id)
  }

  /** An id is listed as a dependent of `key` exactly when some hook with that id depends on `key`. */
  lemma {:induction false} DependentsMembers(hooks: seq<Hook>, key: string, x: string)
    ensures x in Dependents(hooks, key) <==> exists i :: 0 <= i < |hooks| && hooks[i].id == x && key in hooks[i].dependsOn
  {
    if hooks != [] {
      var n := |hooks| - 1;
      DependentsMembers(hooks[..n], key, x);
      assert hooks[..n + 1] == hooks;
      if x in Dependents(hooks, key) && x !in Dependents(hooks[..n], key) {
        assert hooks[n].id == x && key in hooks[n].dependsOn;
      }
      if exists i :: 0 <= i < n && hooks[..n][i].id == x && key in hooks[..n][i].dependsOn {
        var i :| 0 <= i < n && hooks[..n][i].id == x && key in hooks[..n][i].dependsOn;
        assert hooks[i] == hooks[..n][i];
      }
    }
  }

  /** Pushing `id` for each dependency adds exactly the dependencies as keys. */
  lemma {:induction false} PushDependentKeys(m: Adjacency, deps: seq<string>, id: string, key: string)
    ensures key in PushDependent(m, deps, id) <==> key in m || key in deps
  {
    if deps != [] {
      var n := |deps| - 1;
      PushDependentKeys(m, deps[..n], id, key);
      assert deps == deps[..n] + [deps[n]];
    }
  }

  /** Pushing `id` for each dependency appends `id` to the entry for `key` once per occurrence of
      `key`, and leaves the start of the entry alone. */
  lemma {:induction false} PushDependentAt(m: Adjacency, deps: seq<string>, id: string, key: string)
    ensures Lookup(PushDependent(m, deps, id), key) == Lookup(m, key) + Repeat(Count(deps, key), id)
  {
    if deps != [] {
      var n := |deps| - 1;
      PushDependentAt(m, deps[..n], id, key);
      var c := Count(deps[..n], key);
      if deps[n] == key {
        assert Repeat(c + 1, id) == Repeat(c, id) + [id];
        assert Lookup(m, key) + Repeat(c, id) + [id] == Lookup(m, key) + (Repeat(c, id) + [id]);
      }
    }
  }

  /** Some hook has id `key` or names `key` among its dependencies. */
  predicate Named(hooks: seq<Hook>, key: string)
  {
    exists i :: 0 <= i < |hooks| && (hooks[i].id == key || key in hooks[i].dependsOn)
  }

  lemma NamedSnoc(hooks: seq<Hook>, key: string)
    requires hooks != []
    ensures var n := |hooks| - 1;
      Named(hooks, key) <==> Named(hooks[..n], key) || hooks[n].id == key || key in hooks[n].dependsOn
  {
    var n := |hooks| - 1;
    if Named(hooks[..n], key) {
      var i :| 0 <= i < n && (hooks[..n][i].id == key || key in hooks[..n][i].dependsOn);
      assert hooks[..n][i] == hooks[i];
    }
    if Named(hooks, key) {
      var i :| 0 <= i < |hooks| && (hooks[i].id == key || key in hooks[i].dependsOn);
      if i < n {
        assert hooks[..n][i] == hooks[i];
      }
    }
  }

  /** One hook's pass keeps every entry and gives the hook its own. */
  lemma AddHookGrows(m: Adjacency, h: Hook)
    ensures m.Keys <= AddHook(m, h).Keys && h.id in AddHook(m, h)
  {
    forall key | key in m || key == h.id
      ensures key in AddHook(m, h)
    {
      AddHookKeys(m, h, key);
    }
  }

  /** One hook's pass gives it an entry and one for each of its dependencies, and no other. */
  lemma AddHookKeys(m: Adjacency, h: Hook, key: string)
    ensures key in AddHook(m, h) <==> key in m || key == h.id || key in h.dependsOn
  {
    PushDependentKeys(m[h.id := Lookup(m, h.id)], h.dependsOn, h.id, key);
  }

  /** `reverse_deps` has an entry for every hook id and for every dependency, even one naming no
      hook, and for no other key. */
  lemma {:induction false} ReverseDepsKeys(hooks: seq<Hook>, key: string)
    ensures key in ReverseDeps(hooks) <==> Named(hooks, key)
  {
    if hooks != [] {
      var n := |hooks| - 1;
      ReverseDepsKeys(hooks[..n], key);
      AddHookKeys(ReverseDeps(hooks[..n]), hooks[n], key);
      NamedSnoc(hooks, key);
    }
  }

  /** `reverse_deps[key]` lists the hooks that depend on `key`, in hook order, once per occurrence. */
  lemma {:induction false} ReverseDepsAt(hooks: seq<Hook>, key: string)
    ensures Lookup(ReverseDeps(hooks), key) == Dependents(hooks, key)
  {
    if hooks != [] {
      var n := |hooks| - 1;
      var h := hooks[n];
      ReverseDepsAt(hooks[..n], key);
      var m := ReverseDeps(hooks[..n]);
      PushDependentAt(m[h.id := Lookup(m, h.id)], h.dependsOn, h.id, key);
      assert Lookup(m[h.id := Lookup(m, h.id)], key) == Lookup(m, key);
    }
  }

  /** Each hook is listed in the reverse entry of each of its dependencies, and has an entry of its own. */
  lemma DependentListed(hooks: seq<Hook>, i: nat, j: nat)
    requires i < |hooks| && j < |hooks[i].dependsOn|
    ensures hooks[i].id in ReverseDeps(hooks)
    ensures hooks[i].dependsOn[j] in ReverseDeps(hooks)
    ensures hooks[i].id in ReverseDeps(hooks)[hooks[i].dependsOn[j]]
  {
    var key := hooks[i].dependsOn[j];
    ReverseDepsKeys(hooks, key);
    ReverseDepsKeys(hooks, hooks[i].id);
    ReverseDepsAt(hooks, key);
    DependentsMembers(hooks, key, hooks[i].id);
  }

  /** The map-building loop of `print_dag`: for each hook, record its dependency list under its id,
      make sure it has a reverse entry, then append its id to the reverse entry of each of its
      dependencies. */
  method DependencyMaps(hooks: seq<Hook>) returns (deps: Adjacency, reverse: Adjacency)
    ensures deps == DepsMap(hooks)
    ensures reverse == ReverseDeps(hooks)
  {
    deps, reverse := map[], map[];
    for i := 0 to |hooks|
      invariant deps == DepsMap(hooks[..i])
      invariant reverse == ReverseDeps(hooks[..i])
    {
      var hook := hooks[i];
      assert hooks[..i + 1][..i] == hooks[..i];
      deps := deps[hook.id := hook.dependsOn];
      ghost var before := reverse;
      if hook.id !in reverse {
        reverse := reverse[hook.id := []];
      }
      assert reverse == before[hook.id := Lookup(before, hook.id)];
      reverse := RegisterDependent(reverse, hook.dependsOn, hook.id);
    }
    assert hooks[..|hooks|] == hooks;
  }

  /** The inner loop of `print_dag` over one hook's dependencies: append the hook's id to the
      entry of each dependency, creating the entry when it is missing. */
  method RegisterDependent(reverse: Adjacency, deps: seq<string>, id: string) returns (r: Adjacency)
    ensures r == PushDependent(reverse, deps, id)
  {
    r := reverse;
    for j := 0 to |deps|
      invariant r == PushDependent(reverse, deps[..j], id)
    {
      assert deps[..j + 1][..j] == deps[..j];
      var entry := if deps[j] in r then r[deps[j]] else [];
      r := r[deps[j] := entry + [id]];
    }
    assert deps[..|deps|] == deps;
  }
}
