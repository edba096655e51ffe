/** Configuration checks: collect the hooks of every repository in order, then reject a
    configuration whose hook ids repeat or whose dependencies name no hook. Reading the file and
    decoding YAML are outside the model. */
module Parser {
  import opened Seqs
  import opened Core

  /** The hook lists of the repositories, in repository order. */
  function HookLists(config: Config): (lists: seq<seq<Hook>>)
    ensures |lists| == |config.repos|
    ensures forall r :: 0 <= r < |lists| ==> lists[r] == config.repos[r].hooks
  {
    seq(|config.repos|, r requires 0 <= r < |config.repos| => config.repos[r].hooks)
  }

  /** `extract_hooks`: the hooks of all repositories, repository after repository. Their number is
      the total over the repositories. */
  function ExtractHooks(config: Config): (hooks: seq<Hook>)
    ensures |hooks| == SumLengths(HookLists(config))
  {
    FlattenLength(HookLists(config));
    Flatten(HookLists(config))
  }

  /** Every hook of every repository is extracted, at its repository's offset plus its own
      position, and every extracted hook is one of some repository's hooks. */
  lemma ExtractHooksPlaces(config: Config, r: nat, p: nat)
    requires r < |config.repos| && p < |config.repos[r].hooks|
    ensures Offset(HookLists(config), r) + p < |ExtractHooks(config)|
    ensures ExtractHooks(config)[Offset(HookLists(config), r) + p] == config.repos[r].hooks[p]
  {
    FlattenAt(HookLists(config), r, p);
  }

  lemma ExtractHooksOrigin(config: Config, n: nat) returns (r: nat, p: nat)
    requires n < |ExtractHooks(config)|
    ensures r < |config.repos| && p < |config.repos[r].hooks|
    ensures ExtractHooks(config)[n] == config.repos[r].hooks[p]
  {
    var q;
    r, q := FlattenLocate(HookLists(config), n);
    p := q;
    FlattenAt(HookLists(config), r, p);
  }

  // ---------------------------------------------------------------------------
  // Unique ids
  // ---------------------------------------------------------------------------

  /** The first position whose id already occurred earlier. */
  function FirstRepeat(hooks: seq<Hook>): (r: Option<nat>)
    ensures r.None? <==> UniqueIds(hooks)
    ensures r.Some? ==> r.value < |hooks| && UniqueIds(hooks[..r.value])
    ensures r.Some? ==> exists i :: 0 <= i < r.value && hooks[i].id == hooks[r.value].id
  {
    if hooks == [] then None
    else
      var n := |hooks| - 1;
      var init := hooks[..n];
      var r := FirstRepeat(init);
      assert forall i :: 0 <= i < n ==> init[i] == hooks[i];
      if r.Some? then
        assert init[..r.value] == hooks[..r.value];
        r
      else if exists i :: 0 <= i < n && hooks[i].id == hooks[n].id then Some(n)
      else None
  }

  /** The message of the error for a repeated id. */
  function DuplicateMessage(id: string): string
  {
    "Duplicate hook ID: " + id
  }

  /** `validate_unique_ids`: remember each id; the first one seen a second time is an error. */
  method ValidateUniqueIds(hooks: seq<Hook>) returns (r: Result<(), PreCommitError>)
    ensures r.Ok? <==> UniqueIds(hooks)
    ensures r.Err? ==> FirstRepeat(hooks).Some? && r.error == Parse(DuplicateMessage(hooks[FirstRepeat(hooks).value].id))
  {
    var seen: set<string> := {};
    for i := 0 to |hooks|
      invariant seen == Ids(hooks[..i])
      invariant UniqueIds(hooks[..i])
    {
      assert hooks[..i + 1] == hooks[..i] + [hooks[i]];
      if hooks[i].id in seen {
        RepeatFound(hooks, i);
        return Err(Parse(DuplicateMessage(hooks[i].id)));
      }
      seen := seen + {hooks[i].id};
    }
    assert hooks[..|hooks|] == hooks;
    return Ok(());
  }

  /** A repeat right after a duplicate-free prefix is the first repeat. */
  lemma {:induction false} RepeatFound(hooks: seq<Hook>, i: nat)
    requires i < |hooks| && UniqueIds(hooks[..i]) && hooks[i].id in Ids(hooks[..i])
    ensures FirstRepeat(hooks) == Some(i)
  {
    var n := |hooks| - 1;
    var init := hooks[..n];
    var a :| 0 <= a < i && hooks[..i][a].id == hooks[i].id;
    assert hooks[a].id == hooks[i].id;
    if i < n {
      assert init[..i] == hooks[..i] && init[i] == hooks[i];
      RepeatFound(init, i);
    } else {
      assert init == hooks[..i];
    }
  }

  /** Two copies of one hook are rejected at the copy (unit-test input). */
  lemma RepeatedHookRejected(h: Hook)
    ensures FirstRepeat([h, h]) == Some(1)
  {
    var hs := [h, h];
    assert hs[..1] == [h];
    assert hs[..1][0].id == hs[1].id;
    RepeatFound(hs, 1);
  }

  // ---------------------------------------------------------------------------
  // Dependencies
  // ---------------------------------------------------------------------------

  /** The message of the error for a dependency that names no hook. */
  function MissingMessage(id: string, dep: string): string
  {
    "Hook '" + id + "' depends on non-existent hook '" + dep + "'"
  }

  /** `validate_dependencies`: collect the ids, then check each dependency of each hook in order;
      the first one naming no hook is an error. */
  method ValidateDependencies(hooks: seq<Hook>) returns (r: Result<(), PreCommitError>)
    ensures r.Ok? <==> AllKnown(hooks, Ids(hooks))
    ensures r.Err? ==> FirstUnknownDep(hooks, Ids(hooks)).Some?
    ensures r.Err? ==>
      var (i, j) := FirstUnknownDep(hooks, Ids(hooks)).value;
      r.error == HookNotFound(MissingMessage(hooks[i].id, hooks[i].dependsOn[j]))
  {
    var ids := CollectIds(hooks);
    for i := 0 to |hooks|
      invariant forall a, b :: 0 <= a < i && 0 <= b < |hooks[a].dependsOn| ==> hooks[a].dependsOn[b] in ids
    {
      var deps := hooks[i].dependsOn;
      for j := 0 to |deps|
        invariant KnownBefore(hooks, ids, i, j)
      {
        if deps[j] !in ids {
          FirstUnknownDepIsFirst(hooks, ids, i, j);
          return Err(HookNotFound(MissingMessage(hooks[i].id, deps[j])));
        }
      }
    }
    return Ok(());
  }

  /** The set of all hook ids. */
  method CollectIds(hooks: seq<Hook>) returns (ids: set<string>)
    ensures ids == Ids(hooks)
  {
    ids := {};
    for i := 0 to |hooks|
      invariant ids == Ids(hooks[..i])
    {
      assert hooks[..i + 1] == hooks[..i] + [hooks[i]];
      ids := ids + {hooks[i].id};
    }
    assert hooks[..|hooks|] == hooks;
  }

  /** A hook whose only dependency is not among the hooks is rejected at that dependency
      (unit-test input). */
  lemma MissingDependencyRejected(h: Hook, dep: string)
    requires h.dependsOn == [dep] && dep != h.id
    ensures FirstUnknownDep([h], Ids([h])) == Some((0, 0))
  {
    FirstUnknownDepIsFirst([h], Ids([h]), 0, 0);
  }

  /** A dependency on an earlier hook is accepted (unit-test input). */
  lemma KnownDependencyAccepted(h1: Hook, h2: Hook)
    requires h1.dependsOn == [] && h2.dependsOn == [h1.id]
    ensures AllKnown([h1, h2], Ids([h1, h2]))
  {
    assert [h1, h2][0] == h1;
  }

  // ---------------------------------------------------------------------------
  // Whole configuration
  // ---------------------------------------------------------------------------

  /** `validate_config`: extract the hooks, check ids first, then dependencies. */
  method ValidateConfig(config: Config) returns (r: Result<(), PreCommitError>)
    ensures var hooks := ExtractHooks(config);
      r.Ok? <==> UniqueIds(hooks) && AllKnown(hooks, Ids(hooks))
    ensures var hooks := ExtractHooks(config);
      !UniqueIds(hooks) ==>
        (FirstRepeat(hooks).Some? && r == Err(Parse(DuplicateMessage(hooks[FirstRepeat(hooks).value].id))))
    ensures var hooks := ExtractHooks(config);
      UniqueIds(hooks) && !AllKnown(hooks, Ids(hooks)) ==>
        && FirstUnknownDep(hooks, Ids(hooks)).Some?
        && var (i, j) := FirstUnknownDep(hooks, Ids(hooks)).value;
          r == Err(HookNotFound(MissingMessage(hooks[i].id, hooks[i].dependsOn[j])))
  {
    var hooks := ExtractHooks(config);
    var unique := ValidateUniqueIds(hooks);
    if unique.Err? {
      return unique;
    }
    r := ValidateDependencies(hooks);
  }
}
