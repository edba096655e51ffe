/** The data model shared by every crate: hooks and their configuration, per-hook
    and aggregated results, the error kinds, and the levelled execution plan. */
module Core {
  import opened Seqs

  datatype Option<T> = None | Some(value: T)

  datatype Result<T, E> = Ok(value: T) | Err(error: E)

  /** The error kinds of the whole tool (`PreCommitError`); `Io` carries the rendered OS error. */
  datatype PreCommitError =
    | Io(message: string)
    | Parse(message: string)
    | Execution(message: string)
    | CycleDetected
    | HookNotFound(id: string)

  newtype i32 = x: int | -0x8000_0000 <= x < 0x8000_0000

  /** One hook as configured. Datatype equality compares all seven fields, as the derived `PartialEq` does. */
  datatype Hook = Hook(
    id: string,
    name: string,
    entry: string,
    language: string,
    files: Option<string>,
    passFilenames: bool,
    dependsOn: seq<string>)

  datatype Repo = Repo(repo: string, hooks: seq<Hook>)

  datatype Config = Config(repos: seq<Repo>)

  /** The outcome of one hook; the measured duration is not part of the model. */
  datatype HookResult = HookResult(
    hookId: string,
    success: bool,
    exitCode: Option<i32>,
    stdout: string,
    stderr: string)

  /** The outcome of a whole run; the total duration is not part of the model. */
  datatype ExecutionResult = ExecutionResult(hooks: seq<HookResult>, allPassed: bool)

  /** Hooks grouped by level; `ExecutionPlan::new` is the constructor, which stores the levels as given. */
  datatype ExecutionPlan = ExecutionPlan(levels: seq<seq<Hook>>)
  {
    /** All hooks, level after level, each level in its own order. */
    function Sequential(): (hooks: seq<Hook>)
      ensures |hooks| == SumLengths(levels)
      ensures levels == [] ==> hooks == []
    {
      FlattenLength(levels);
      Flatten(levels)
    }
  }

  /** `Sequential` keeps hook `p` of level `i` at position `Offset(i) + p`, whatever the number of
      levels. */
  lemma SequentialAt(plan: ExecutionPlan, i: nat, p: nat)
    requires i < |plan.levels| && p < |plan.levels[i]|
    ensures Offset(plan.levels, i) + p < |plan.Sequential()|
    ensures plan.Sequential()[Offset(plan.levels, i) + p] == plan.levels[i][p]
  {
    FlattenAt(plan.levels, i, p);
  }

  /** Every position of `Sequential` holds a hook of some level. */
  lemma SequentialOrigin(plan: ExecutionPlan, n: nat) returns (i: nat, p: nat)
    requires n < |plan.Sequential()|
    ensures i < |plan.levels| && p < |plan.levels[i]|
    ensures plan.Sequential()[n] == plan.levels[i][p]
  {
    i, p := FlattenLocate(plan.levels, n);
    FlattenAt(plan.levels, i, p);
  }

  /** A plan of one level runs that level as it is. */
  lemma SequentialSingle(level: seq<Hook>)
    ensures ExecutionPlan([level]).Sequential() == level
  {
    var plan := ExecutionPlan([level]);
    assert Offset(plan.levels, 0) == 0 by {
      assert plan.levels[..0] == [];
    }
    forall p | 0 <= p < |level|
      ensures plan.Sequential()[p] == level[p]
    {
      SequentialAt(plan, 0, p);
    }
  }

  /** `Sequential` puts every hook of an earlier level before every hook of a later one. */
  lemma SequentialOrder(plan: ExecutionPlan, i: nat, p: nat, j: nat, q: nat)
    requires i < j < |plan.levels| && p < |plan.levels[i]| && q < |plan.levels[j]|
    ensures Offset(plan.levels, i) + p < Offset(plan.levels, j) + q < |plan.Sequential()|
    ensures plan.Sequential()[Offset(plan.levels, i) + p] == plan.levels[i][p]
    ensures plan.Sequential()[Offset(plan.levels, j) + q] == plan.levels[j][q]
  {
    FlattenAt(plan.levels, i, p);
    FlattenAt(plan.levels, j, q);
    OffsetMonotone(plan.levels, i, j);
  }

  /** The ids carried by `hooks`. */
  function Ids(hooks: seq<Hook>): (ids: set<string>)
    ensures forall i :: 0 <= i < |hooks| ==> hooks[i].id in ids
    ensures forall id :: id in ids ==> exists i :: 0 <= i < |hooks| && hooks[i].id == id
  {
    set i | 0 <= i < |hooks| :: hooks[i].id
  }

  /** No two hooks share an id. */
  predicate UniqueIds(hooks: seq<Hook>)
  {
    forall i, j :: 0 <= i < j < |hooks| ==> hooks[i].id != hooks[j].id
  }

  /** Every result succeeded (`results.iter().all(|r| r.success)`). */
  predicate AllSucceeded(results: seq<HookResult>)
  {
    forall i :: 0 <= i < |results| ==> results[i].success
  }

  /** Every dependency of every hook names an id in `known`. */
  predicate AllKnown(hooks: seq<Hook>, known: set<string>)
  {
    forall a, b :: 0 <= a < |hooks| && 0 <= b < |hooks[a].dependsOn| ==> hooks[a].dependsOn[b] in known
  }

  /** Every dependency visited before position (i, j) of the scan "each hook in order, each of its
      dependencies in order" names an id in `known`. */
  predicate KnownBefore(hooks: seq<Hook>, known: set<string>, i: nat, j: nat)
    requires i < |hooks|
  {
    && (forall a, b :: 0 <= a < i && 0 <= b < |hooks[a].dependsOn| ==> hooks[a].dependsOn[b] in known)
    && (forall b :: 0 <= b < j && b < |hooks[i].dependsOn| ==> hooks[i].dependsOn[b] in known)
  }

  /** The first position in `deps` whose id is not in `known`. */
  function FirstUnknownIn(deps: seq<string>, known: set<string>): (r: Option<nat>)
    ensures r.None? <==> forall b :: 0 <= b < |deps| ==> deps[b] in known
    ensures r.Some? ==> r.value < |deps| && deps[r.value] !in known
    ensures r.Some? ==> forall b :: 0 <= b < r.value ==> deps[b] in known
  {
    if deps == [] then None
    else if deps[0] !in known then Some(0)
    else
      match FirstUnknownIn(deps[1..], known)
      case None => None
      case Some(b) => Some(b + 1)
  }

  /** The first (hook, dependency) position, in scan order, whose dependency is not in `known`. */
  function FirstUnknownDep(hooks: seq<Hook>, known: set<string>): (r: Option<(nat, nat)>)
    ensures r.None? <==> AllKnown(hooks, known)
    ensures r.Some? ==> r.value.0 < |hooks| && r.value.1 < |hooks[r.value.0].dependsOn|
    ensures r.Some? ==> hooks[r.value.0].dependsOn[r.value.1] !in known
    ensures r.Some? ==> KnownBefore(hooks, known, r.value.0, r.value.1)
  {
    if hooks == [] then None
    else
      match FirstUnknownIn(hooks[0].dependsOn, known)
      case Some(b) => Some((0, b))
      case None =>
        match FirstUnknownDep(hooks[1..], known)
        case None =>
          AllKnownCons(hooks, known);
          None
        case Some((i, j)) =>
          KnownBeforeCons(hooks, known, i, j);
          Some((i + 1, j))
  }

  /** When the first hook's dependencies are known, all are known exactly when the rest's are. */
  lemma AllKnownCons(hooks: seq<Hook>, known: set<string>)
    requires hooks != [] && FirstUnknownIn(hooks[0].dependsOn, known).None?
    ensures AllKnown(hooks, known) <==> AllKnown(hooks[1..], known)
  {
    assert forall a :: 0 < a < |hooks| ==> hooks[a] == hooks[1..][a - 1];
  }

  /** A position of the rest, shifted past a first hook whose dependencies are known. */
  lemma KnownBeforeCons(hooks: seq<Hook>, known: set<string>, i: nat, j: nat)
    requires hooks != [] && FirstUnknownIn(hooks[0].dependsOn, known).None?
    requires i < |hooks[1..]| && KnownBefore(hooks[1..], known, i, j)
    ensures KnownBefore(hooks, known, i + 1, j)
  {
    assert forall a :: 0 < a < |hooks| ==> hooks[a] == hooks[1..][a - 1];
  }

  /** An unknown dependency with only known ones before it in scan order is the one `FirstUnknownDep` finds. */
  lemma FirstUnknownDepIsFirst(hooks: seq<Hook>, known: set<string>, i: nat, j: nat)
    requires i < |hooks| && j < |hooks[i].dependsOn|
    requires hooks[i].dependsOn[j] !in known && KnownBefore(hooks, known, i, j)
    ensures FirstUnknownDep(hooks, known) == Some((i, j))
  {
    var r := FirstUnknownDep(hooks, known);
    assert r.Some?;
  }
}
