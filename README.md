# pre-commit-rs core, modelled in Dafny

pre-commit-rs runs the hooks named in a `.pre-commit-config.yaml`. A hook may list other hooks
in `depends_on`. In parallel mode the hooks run level by level, so a hook runs only after
everything it depends on has run, and hooks of one level may run at the same time. In sequential
mode the hooks run one by one in configuration order, whatever their dependencies. This project
models the core of that system and proves properties of the model:

- **Configuration checks** (`parser`). Hooks are extracted from all repositories, in order. Their
  ids must be unique, and every `depends_on` entry must name a known hook. The first violation is
  reported with the source's error kind and message.
- **Planning** (`dag`). One graph node per hook, one edge per dependency, a topological sort that
  detects cycles, a depth per node (one more than the deepest prerequisite), and levels grouped
  by depth.
- **Running one hook** (`Command`, shared by the three copies in the executors and the command
  line tool). The files are filtered by the hook's pattern. The argument vector is built with the
  small `shell_words::split` tokenizer, plus the file names when the hook takes them. The program
  is started and its outcome turned into a `HookResult`.
- **Executors**. The sequential executor runs the hooks in configuration order. The parallel
  executor runs the plan level after level, and collects each level's results in the level's own
  order.
- **Command line tool** (`Cli`). The live status board: every hook starts `Pending`, the hooks of
  a level become `Running`, and each becomes `Success` or `Failed` when its result arrives.
  Results are collected in completion order. The tool also builds the forward and reverse
  dependency maps behind `print_dag`.

Imperative code (the loops of `build_graph`, `compute_levels`, the validators, the executors, the
status board and the dependency maps of `print_dag`) is modelled as methods with loops. Each is proved against specification
functions, and the properties are proved about those functions. The tokenizer's character loop is
the method `ShellWords.Split`, proved equal to the reference functions `Scan` and `SplitWords`.
Iterator chains (the plan's sequential view, extraction) are modelled as functions and lemmas.

The outside world is passed in as parameters:
- `Command.Env` decides whether a pattern compiles, whether it matches a path, and what starting
  an argument vector reports.
- `Cli.CompletionOrder` decides which running hook of a level finishes next.

## Model

| member | source | states |
|---|---|---|
| Core.ExecutionPlan.Sequential | crates/core/src/lib.rs:91-96 | the hooks of all levels, level after level; its length is the sum of the level sizes and no levels give no hooks |
| Core.SequentialAt | crates/core/src/lib.rs:91-96 | hook p of level i sits at the level's offset plus p, for any number of levels |
| Core.SequentialOrigin | crates/core/src/lib.rs:91-96 | every position of the sequential view holds a hook of some level |
| Core.SequentialSingle | crates/core/src/lib.rs:91-96 | a plan of one level runs that level as it is |
| Core.SequentialOrder | crates/core/src/lib.rs:91-96 | every hook of an earlier level comes before every hook of a later level |
| Core.FirstUnknownIn | crates/parser/src/lib.rs:45-51 | the first dependency of one hook naming an unknown id: none exactly when all are known, otherwise an unknown one with only known ones before it |
| Core.FirstUnknownDep | crates/parser/src/lib.rs:44-53 | the first (hook, dependency) position in scan order naming an unknown id: none exactly when all are known; otherwise everything scanned before it is known |
| Core.FirstUnknownDepIsFirst | crates/parser/src/lib.rs:44-53 | any unknown dependency with only known ones before it in scan order is the position `FirstUnknownDep` reports |
| Core.Ids | crates/parser/src/lib.rs:42 | the id set holds every hook's id and nothing else |
| Parser.HookLists | crates/parser/src/lib.rs:18-24 | one hook list per repository, in repository order |
| Parser.ExtractHooksPlaces | crates/parser/src/lib.rs:18-24 | hook p of repository r is extracted at that repository's offset plus p |
| Parser.ExtractHooksOrigin | crates/parser/src/lib.rs:18-24 | every extracted hook is a hook of some repository |
| Parser.ExtractHooks | crates/parser/src/lib.rs:18-24 | the number of extracted hooks is the total over the repositories |
| Parser.FirstRepeat | crates/parser/src/lib.rs:27-38 | the first position whose id already occurred: none exactly when ids are unique, otherwise the prefix before it is duplicate-free and an earlier hook shares its id |
| Parser.ValidateUniqueIds | crates/parser/src/lib.rs:27-38 | succeeds exactly when ids are unique; otherwise fails with `Parse("Duplicate hook ID: <id>")` for the first repeated id |
| Parser.RepeatFound | crates/parser/src/lib.rs:29-35 | a repeat right after a duplicate-free prefix is the first repeat |
| Parser.RepeatedHookRejected | crates/parser/src/lib.rs:113-127 | two copies of one hook are rejected at the second copy |
| Parser.CollectIds | crates/parser/src/lib.rs:42 | the collected set is the set of hook ids |
| Parser.ValidateDependencies | crates/parser/src/lib.rs:41-55 | succeeds exactly when every dependency names a hook; otherwise fails with `HookNotFound("Hook '<id>' depends on non-existent hook '<dep>'")` for the first such dependency in scan order |
| Parser.MissingDependencyRejected | crates/parser/src/lib.rs:154-168 | a hook whose only dependency names no hook is rejected at that dependency |
| Parser.KnownDependencyAccepted | crates/parser/src/lib.rs:130-152 | a dependency on an earlier hook is accepted |
| Parser.ValidateConfig | crates/parser/src/lib.rs:58-63 | succeeds exactly when ids are unique and all dependencies are known; a duplicate id is reported before any missing dependency, each with its own error |
| Dag.IdIndex | crates/dag/src/lib.rs:21-24 | every hook id is a key and maps to that hook's index or a later one (a later insert overwrites) |
| Dag.IdIndexSound | crates/dag/src/lib.rs:21-24 | every key maps to a hook carrying that id |
| Dag.IdIndexBelow | crates/dag/src/lib.rs:21-24 | every node the id map names is one of the graph's nodes |
| Dag.HookEdges | crates/dag/src/lib.rs:29-35 | a hook contributes at most one edge per dependency, each ending at the hook's node |
| Dag.EdgesUpTo | crates/dag/src/lib.rs:27-36 | every edge of the first n hooks joins two nodes of the graph |
| Dag.DependencyGraph | crates/dag/src/lib.rs:16-39 | the graph has one node per hook in order, and is well formed |
| Dag.IdIndexKeys | crates/dag/src/lib.rs:21-24 | the keys are exactly the hook ids |
| Dag.UniqueIdIndex | crates/dag/src/lib.rs:21-24 | with unique ids, each hook's id maps to its own index |
| Dag.IndexHooks | crates/dag/src/lib.rs:21-24 | the node loop builds the id-to-node map |
| Dag.HookEdgesSound | crates/dag/src/lib.rs:29-35 | every edge a hook contributes comes from one of its dependencies' nodes into the hook's node |
| Dag.HookEdgesComplete | crates/dag/src/lib.rs:29-35 | every known dependency contributes its edge |
| Dag.EdgesUpToSound | crates/dag/src/lib.rs:27-36 | every edge of the first n hooks is declared by one of their dependencies |
| Dag.EdgesUpToComplete | crates/dag/src/lib.rs:27-36 | every declared dependency of the first n hooks yields its edge |
| Dag.DependencyGraphMeaning | crates/dag/src/lib.rs:16-39 | the built graph is well formed and has exactly the declared edges |
| Dag.UniqueIdEdges | crates/dag/src/lib.rs:27-36 | with unique ids, there is an edge u→v exactly when hook v lists hook u's id |
| Dag.UnknownFound | crates/dag/src/lib.rs:29-32 | the build stops at the first unknown dependency in scan order |
| Dag.NoneUnknown | crates/dag/src/lib.rs:27-36 | a scan finding no unknown dependency means all are known |
| Dag.AddHookEdges | crates/dag/src/lib.rs:29-35 | the inner loop appends the hook's edges in dependency order, or stops at the first unknown dependency |
| Dag.ConnectHooks | crates/dag/src/lib.rs:27-36 | the outer loop yields all edges in insertion order, or the position of the first unknown dependency |
| Dag.ConnectHook | crates/dag/src/lib.rs:28-35 | one pass of the outer loop appends the hook's edges, or reports its first unknown dependency |
| Dag.BuildGraph | crates/dag/src/lib.rs:16-39 | succeeds exactly when all dependencies are known, with the dependency graph; otherwise fails with `HookNotFound(dep)` for the first unknown dependency |
| Dag.EdgeOrdered | crates/dag/src/lib.rs:44 | in a topological order, every edge's source comes before its target |
| Dag.CycleForbidsOrder | crates/dag/src/lib.rs:44 | a graph with a cycle has no topological order |
| Dag.CycleCannotAscend | crates/dag/src/lib.rs:44 | no numbering of the nodes grows strictly all the way around a cycle |
| Dag.StuckHasCycle | crates/dag/src/lib.rs:44 | when every unplaced node waits on another unplaced node, the graph has a cycle |
| Dag.BackwardWalk | crates/dag/src/lib.rs:44 | walking back along waiting nodes gives a walk longer than the number of nodes |
| Dag.WalkCycle | crates/dag/src/lib.rs:44 | a backward walk that revisits a node contains a cycle |
| Dag.TopoSort | crates/dag/src/lib.rs:44 | returns a topological order when there is one and gives up exactly when the graph has a cycle |
| Dag.MaxParentDepth | crates/dag/src/lib.rs:50-54 | at least the depth of every source of an edge into the node (0 for a source without a depth), and equal to one of them unless 0 |
| Dag.MaxParentCongruent | crates/dag/src/lib.rs:50-54 | the result depends only on the depths of the node's sources |
| Dag.ComputeDepths | crates/dag/src/lib.rs:49-57 | visiting a topological order gives every node one more than its deepest prerequisite |
| Dag.SettledStay | crates/dag/src/lib.rs:49-57 | setting a node's depth leaves the parent depths of the nodes already visited unchanged |
| Dag.DepthsComplete | crates/dag/src/lib.rs:49-57 | once every node of the order is settled, the depths are complete |
| Dag.EdgeDeepens | crates/dag/src/lib.rs:56 | depth grows strictly along every edge |
| Dag.DepthForbidsCycle | crates/dag/src/lib.rs:44-57 | a graph with depths has no cycle |
| Dag.DepthAgreesAt | crates/dag/src/lib.rs:49-57 | two depth assignments of one graph agree at every node |
| Dag.DepthUnique | crates/dag/src/lib.rs:49-57 | the depths do not depend on which topological order computed them |
| Dag.DepthMinimal | crates/dag/src/lib.rs:49-57 | any positive numbering that grows along every edge is at least the depth: each hook runs as early as possible |
| Dag.DepthGapless | crates/dag/src/lib.rs:49-61 | every depth between 1 and a node's depth is taken by some node |
| Dag.MaxDepth | crates/dag/src/lib.rs:60 | the largest depth, or 0 with no nodes |
| Dag.Members | crates/dag/src/lib.rs:63-66 | the nodes of one depth, in increasing node order |
| Dag.Pick | crates/dag/src/lib.rs:64-65 | one hook per chosen node |
| Dag.LevelsOf | crates/dag/src/lib.rs:59-66 | there are as many levels as the largest depth |
| Dag.PlaceByDepth | crates/dag/src/lib.rs:61-66 | the level loop puts each hook in level depth−1; the levels hold exactly the hooks (as a multiset) |
| Dag.ComputeLevels | crates/dag/src/lib.rs:42-69 | fails with `CycleDetected` exactly on a cycle; otherwise levels by depth holding exactly the hooks |
| Dag.NodePlaced | crates/dag/src/lib.rs:63-66 | every hook sits in the level of its depth |
| Dag.LevelMember | crates/dag/src/lib.rs:63-66 | every hook of level k has depth k+1 |
| Dag.NoEmptyLevel | crates/dag/src/lib.rs:59-66 | no level is empty |
| Dag.DependencyDeeper | crates/dag/src/lib.rs:27-57 | with unique ids, a hook is deeper than each of its dependencies |
| Dag.DependenciesRunEarlier | crates/dag/src/lib.rs:42-69 | with unique ids, each dependency of a hook sits in a strictly earlier level |
| Dag.LevelIsEarliest | crates/dag/src/lib.rs:49-57 | with unique ids, a hook without dependencies is in the first level, and any other is one level after its deepest dependency |
| Dag.NoDependenciesOneLevel | crates/dag/src/lib.rs:108-122 | hooks without dependencies form one single level, in configuration order |
| Dag.BuildPlan | crates/dag/src/lib.rs:79-88 | no hooks give no levels; an unknown dependency fails with `HookNotFound` before any cycle check; otherwise it fails with `CycleDetected` exactly on a cycle, and a plan holds exactly the hooks, levelled by depth |
| ShellWords.Break | crates/executor-sync/src/lib.rs:129-134 | ends the word being built when it is not empty, keeping the quote state |
| ShellWords.Width | crates/executor-sync/src/lib.rs:135-139 | one step consumes at least one character and never more than remain; the two-character escape pair and the dropped lone backslash are stated by `ScanEscapePair` and `ScanTrailingBackslash` |
| ShellWords.Step | crates/executor-sync/src/lib.rs:122-144 | one step finishes at most one word, the non-empty one being built, and keeps the words already finished |
| ShellWords.Scan | crates/executor-sync/src/lib.rs:121-145 | scanning only ever adds words after those already finished |
| ShellWords.Split | crates/executor-sync/src/lib.rs:114-151 | the character loop plus the final word give the words of the input, and splitting never fails |
| ShellWords.ScanKeepsWordsNonEmpty | crates/executor-sync/src/lib.rs:129-134 | the tokenizer never emits an empty word |
| ShellWords.SplitWords | crates/executor-parallel/src/lib.rs:129-166 | no word of a split is empty, however many blanks or empty quotes the input holds |
| ShellWords.ScanPlain | crates/executor-sync/src/lib.rs:140-142 | plain characters are appended to the current word |
| ShellWords.ScanLiteral | crates/executor-sync/src/lib.rs:121-143 | a character the state takes literally is appended to the current word |
| ShellWords.ScanEscapePair | crates/executor-sync/src/lib.rs:135-139 | a backslash outside single quotes appends the next character |
| ShellWords.ScanTrailingBackslash | crates/executor-sync/src/lib.rs:135-139 | a backslash with nothing after it, outside single quotes, is dropped and changes nothing |
| ShellWords.PlainTrailingBackslash | crates/executor-sync/src/lib.rs:135-148 | a plain word followed by a lone backslash splits into that word alone |
| ShellWords.ScanBlank | crates/executor-sync/src/lib.rs:129-134 | a blank, space or tab, outside quotes ends the current word |
| ShellWords.ScanQuoteChar | crates/executor-sync/src/lib.rs:123-128 | a quote outside the other kind of quote toggles its segment |
| ShellWords.ScanSingleQuoted | crates/executor-sync/src/lib.rs:123-143 | inside single quotes every character but `'` is literal, backslashes included |
| ShellWords.ScanEscaped | crates/executor-sync/src/lib.rs:126-139 | inside double quotes, text with `"` and `\` escaped is taken back literally |
| ShellWords.ScanQuoted | crates/executor-sync/src/lib.rs:126-139 | a double-quoted escaped word is taken back whole and the quote closed |
| ShellWords.UnwordsScan | crates/executor-sync/src/lib.rs:114-151 | scanning plain words joined by spaces collects exactly those words |
| ShellWords.PlainLast | crates/executor-sync/src/lib.rs:146-148 | the last plain word is collected by the final step |
| ShellWords.PlainThenBlank | crates/executor-sync/src/lib.rs:129-134 | a plain word followed by a blank is finished before the rest is read |
| ShellWords.SplitUnwords | crates/executor-sync/src/lib.rs:114-151 | joining plain words with spaces and splitting gives the words back |
| ShellWords.EscapeChars | crates/executor-sync/src/lib.rs:135-139 | escaping never shortens a text |
| ShellWords.QuoteAllScan | crates/cli/src/main.rs:408-445 | scanning quoted words joined by spaces collects exactly those words |
| ShellWords.QuotedLast | crates/executor-sync/src/lib.rs:146-148 | the last quoted word is collected by the final step |
| ShellWords.QuotedThenBlank | crates/executor-sync/src/lib.rs:129-134 | a quoted word followed by a blank is finished before the rest is read |
| ShellWords.SplitQuoteAll | crates/executor-sync/src/lib.rs:114-151 | any non-empty words, double-quoted with escapes and joined by spaces, split back into exactly those words |
| ShellWords.EmptyQuotesVanish | crates/executor-sync/src/lib.rs:146-148 | an empty quoted segment alone yields no word |
| ShellWords.PlainThenSingleQuoted | crates/executor-sync/src/lib.rs:123-125 | a plain word then a single-quoted phrase split into the word and the whole phrase |
| ShellWords.PlainThenDoubleQuoted | crates/executor-sync/src/lib.rs:126-128 | a plain word then a double-quoted phrase split into the word and the whole phrase |
| ShellWords.EscapeCharsIdentity | crates/executor-sync/src/lib.rs:135-139 | text without `"` or `\` needs no escaping |
| ShellWords.SplitPlainExample | crates/executor-sync/src/lib.rs:159-163 | `echo hello world` splits into three words |
| ShellWords.SplitSingleQuotedExample | crates/executor-sync/src/lib.rs:164-167 | `echo 'hello world'` splits into `echo` and `hello world` |
| ShellWords.SplitDoubleQuotedExample | crates/executor-sync/src/lib.rs:168-171 | `echo "hello world"` splits into `echo` and `hello world` |
| Command.Path.ToStr | crates/executor-sync/src/lib.rs:21 | a path has a text form exactly when it is valid Unicode |
| Command.FilterFiles | crates/executor-sync/src/lib.rs:16-27 | with a pattern that compiles, exactly the matching files in their order, each kept as often as it occurs; with no pattern or a bad one, all files unchanged |
| Command.PathTexts | crates/executor-sync/src/lib.rs:41-45 | the text forms of the paths that have one, in order; paths without one are skipped |
| Command.PathTextsInOrder | crates/executor-sync/src/lib.rs:41-45 | the k-th text is the text of the k-th path that has one, and there are as many texts as such paths |
| Command.PathTextsAllText | crates/executor-sync/src/lib.rs:41-45 | when every path has a text form, the texts are the paths in order |
| Command.Argv | crates/executor-sync/src/lib.rs:37-46 | the argument vector starts with the words of `entry` and adds file names only when the hook passes them; it is empty exactly when there is no word and no file name |
| Command.BuildArgv | crates/executor-sync/src/lib.rs:37-46 | the command-building loop gives the argument vector |
| Command.RunOne | crates/executor-sync/src/lib.rs:30-82 | the result carries the hook's id, and success means exit code 0 |
| Command.RunOneOutcome | crates/executor-sync/src/lib.rs:49-81 | a hook succeeds exactly when its program ran and exited 0; an empty command is never started and fails with "Failed to execute command: Empty command"; a failed start has no exit code and no output, and its diagnostic is the prefix followed by the error; a program that ran reports its exit code and both output streams unchanged |
| Command.ExecuteHook | crates/executor-parallel/src/lib.rs:32-85 | filtering, building, starting and reporting give the result of running the hook |
| Command.RunAll | crates/executor-parallel/src/lib.rs:88-94 | one result per hook, in the hooks' own order, each the result of running that hook |
| Command.RunAllAppend | crates/executor-parallel/src/lib.rs:102-105 | running two lists of hooks is running their concatenation |
| Command.RunAllSlice | crates/executor-parallel/src/lib.rs:102-105 | running a slice of the hooks gives that slice of the results |
| Command.RunAllRemove | crates/cli/src/main.rs:239-252 | running the hooks left after taking one out gives the same results less that hook's result, counted as a multiset |
| ExecutorSync.AllPassed | crates/executor-sync/src/lib.rs:102 | true exactly when every result succeeded |
| ExecutorSync.Execute | crates/executor-sync/src/lib.rs:92-109 | never fails; one result per hook in hook order; passes exactly when all succeeded |
| ExecutorSync.PassedIffAllExitZero | crates/executor-sync/src/lib.rs:96-102 | a run passes exactly when every hook exited with code 0 |
| ExecutorSync.ResultsFollowHookOrder | crates/executor-sync/src/lib.rs:96-99 | result k carries the id of hook k |
| ExecutorParallel.ParallelExecutor.ExecuteAsync | crates/executor-parallel/src/lib.rs:97-115 | never fails; the results are those of the plan's hooks in plan order; passes exactly when all succeeded |
| ExecutorParallel.ParallelExecutor.Execute | crates/executor-parallel/src/lib.rs:118-125 | ignores the hooks handed in and runs the plan |
| ExecutorParallel.LevelBlocks | crates/executor-parallel/src/lib.rs:102-105 | each level's results form one contiguous block, in plan order, equal to the level run on its own |
| ExecutorParallel.PassedIffEveryLevelPassed | crates/executor-parallel/src/lib.rs:102-108 | the run passes exactly when every level passes; a failing level does not stop later levels |
| Cli.Verdict | crates/cli/src/main.rs:241-245 | `Success` exactly when the result succeeded, `Failed` exactly when it did not |
| Cli.AllPendingAt | crates/cli/src/main.rs:213-216 | before any level runs, every hook id and no other key is on the board, each `Pending` |
| Cli.InitStatuses | crates/cli/src/main.rs:213-216 | the first loop builds the all-`Pending` board |
| Cli.AllPending | crates/cli/src/main.rs:213-216 | the initial board holds every hook, each `Pending` |
| Cli.MarkRunningAt | crates/cli/src/main.rs:230-233 | after a level starts, each of its hooks is `Running` and every other entry is unchanged |
| Cli.StartLevel | crates/cli/src/main.rs:230-233 | the start loop marks the level's hooks `Running`, before any of its results is consumed |
| Cli.MarkRunning | crates/cli/src/main.rs:230-233 | after the marking every hook of the level is `Running`, and no entry is lost |
| Cli.LastWith | crates/cli/src/main.rs:239-252 | the position of the last result for an id, or none when no result carries it |
| Cli.RecordAt | crates/cli/src/main.rs:239-252 | after results are recorded, each hook shows the verdict of its last result and a hook without a result keeps its status; only reported ids are added |
| Cli.Record | crates/cli/src/main.rs:239-252 | after recording, every hook that reported shows a final status, never `Running`, and no entry is lost |
| Cli.RecordSnoc | crates/cli/src/main.rs:246 | one arriving result sets its own hook's status and changes no other entry |
| Cli.RecordAppend | crates/cli/src/main.rs:226-253 | recording two batches in turn is recording their concatenation |
| Cli.RecordNoRunning | crates/cli/src/main.rs:240-246 | recording results never sets `Running` |
| Cli.RunningOverwritten | crates/cli/src/main.rs:230-252 | once every hook of a level has reported, none of its `Running` marks remains |
| Cli.ExecuteHookWithId | crates/cli/src/main.rs:269-340 | returns the hook's id together with the result of running it |
| Cli.AwaitLevel | crates/cli/src/main.rs:230-252 | started with every hook of the level `Running`, and whatever the completion order, the collected results are a permutation of the level's results, and the board records them in that order |
| Cli.RunLevelLive | crates/cli/src/main.rs:226-253 | after a level, the board is the one before it with the level's verdicts recorded |
| Cli.LevelReports | crates/cli/src/main.rs:239-252 | every hook of a level reports among the level's results |
| Cli.LevelsPermuted | crates/cli/src/main.rs:226-253 | permuting each level's results permutes the whole run |
| Cli.PermutationKeepsVerdict | crates/cli/src/main.rs:260 | whether all results succeeded does not depend on their order |
| Cli.ExecuteWithLiveStatus | crates/cli/src/main.rs:204-267 | never fails; one block per level in plan order, each a permutation of that level's results; one result per plan hook; passes exactly when all hooks of the plan succeed; the final board shows each hook's last verdict and no hook is left `Running` |
| Cli.DepsMapKeys | crates/cli/src/main.rs:79-80 | the forward map has exactly the hook ids as keys |
| Cli.DepsMap | crates/cli/src/main.rs:79-80 | every hook has an entry in the forward map |
| Cli.DepsMapAt | crates/cli/src/main.rs:79-80 | a hook's id maps to its own dependency list unless a later hook reuses the id |
| Cli.Count | crates/cli/src/main.rs:83-88 | zero exactly when the key does not occur, and never more than the list's length |
| Cli.Repeat | crates/cli/src/main.rs:83-88 | c copies of one id |
| Cli.DependentsMembers | crates/cli/src/main.rs:83-88 | an id is a dependent of a key exactly when some hook with that id depends on the key |
| Cli.PushDependentKeys | crates/cli/src/main.rs:83-88 | the dependency loop adds exactly the dependencies as keys |
| Cli.PushDependentAt | crates/cli/src/main.rs:83-88 | the dependency loop appends the hook's id to a key's entry once per occurrence of the key, keeping what was there |
| Cli.AddHookKeys | crates/cli/src/main.rs:79-89 | one hook's pass creates its own entry and one per dependency, and no other |
| Cli.AddHookGrows | crates/cli/src/main.rs:79-89 | one hook's pass keeps every entry and gives the hook its own |
| Cli.NamedSnoc | crates/cli/src/main.rs:79-89 | a key is named by the hooks exactly when the earlier hooks or the last one name it |
| Cli.ReverseDepsKeys | crates/cli/src/main.rs:79-89 | every hook id and every dependency has an entry, even a dependency naming no hook, and no other key does |
| Cli.ReverseDeps | crates/cli/src/main.rs:79-89 | every hook has an entry in the reverse map, even one no hook depends on |
| Cli.ReverseDepsAt | crates/cli/src/main.rs:79-89 | the entry for a key lists the hooks that depend on it, in hook order, once per occurrence |
| Cli.DependentListed | crates/cli/src/main.rs:79-89 | each hook has its own entry and is listed in the entry of each of its dependencies |
| Cli.DependencyMaps | crates/cli/src/main.rs:76-89 | the `print_dag` loop builds the forward and reverse maps |
| Cli.RegisterDependent | crates/cli/src/main.rs:83-88 | the inner loop appends the hook's id to each dependency's entry, creating missing entries |

## Left out

- Reading and parsing the YAML file (`parse_config_file`, `parse_config`) is left out. The model starts from a parsed `Config`.
- Durations (`duration_ms`, `total_duration_ms`) and the clock behind them are left out.
- Starting processes, regular expressions, the `FORCE_COLOR`/`CLICOLOR_FORCE` variables and the lossy UTF-8 decoding of output are not modelled in detail. They are the `Env` parameter: the model fixes how their answers are used, not what they are.
- Concurrency is left out. The tokio runtime, `join_all` and `FuturesUnordered` are modelled as sequential runs. In the command line tool, the order in which the hooks of a level finish is the `CompletionOrder` parameter.
- The topological order comes from our own sort, which picks the lowest-numbered ready node, instead of petgraph's `toposort`. The levels do not depend on which topological order is used (`Dag.DepthUnique`).
- Dag.PlaceByDepth: the source walks a hash map, so hooks within a level come out in an unspecified order. The model fixes node order, which is one of the allowed orders.
- Terminal output is left out: `display_inline_status`, `clear_inline_status`, the spinner, the drawing part of `print_dag` and the summary printed by `run_hooks`.
- Git access (`get_staged_files`), `install_hook`/`uninstall_hook`, argument parsing, `main` and the `ci` binary are left out. They are plumbing around the modelled core.
- `run_hooks` is left out. It only chains the modelled operations: validate, build the plan, pick an executor, print.
- Cli.ExecuteWithLiveStatus returns the final status board and the per-level result blocks. The source keeps them only for display; they are returned so their properties can be stated.
- ShellWords.Split: inside double quotes, a backslash still escapes the next character. The model follows the code here, which differs from a reading where quotes suspend all escapes.
