/** Running one hook: choose the files its pattern selects, build the argument vector from its
    `entry` and those files, start the program and turn what the operating system reports into a
    `HookResult`. The regular-expression engine and process spawning are outside the model and
    are passed in as an `Env`. */
module Command {
  import opened Seqs
  import opened Core
  import ShellWords

  /** A file path: text when it is valid Unicode, raw bytes otherwise (then `to_str` gives nothing). */
  datatype Path = TextPath(text: string) | RawPath(bytes: seq<bv8>)
  {
    function ToStr(): (r: Option<string>)
      ensures r.Some? <==> TextPath?
      ensures r.Some? ==> r.value == text
    {
      if TextPath? then Some(text) else None
    }
  }

  /** What starting a program reports: it ran (exit code absent when a signal ended it, plus the
      decoded output streams), or it could not be started (with the rendered error). */
  datatype Spawn = Exited(code: Option<i32>, stdout: string, stderr: string) | SpawnFailed(message: string)

  /** The outside world: whether a pattern compiles, whether a compiled pattern matches a text, and
      what running an argument vector (program first, with the two colour variables set) reports. */
  datatype Env = Env(compiles: string -> bool, isMatch: (string, string) -> bool, spawn: seq<string> -> Spawn)

  /** The prefix of every diagnostic for a command that did not run. */
  const FailurePrefix: string := "Failed to execute command: "

  /** The message of the error raised for an empty argument vector. */
  const EmptyCommand: string := "Empty command"

  /** A path is kept when it has a text form that the compiled pattern matches. */
  predicate Keeps(env: Env, pattern: string, f: Path)
  {
    f.TextPath? && env.isMatch(pattern, f.text)
  }

  /** `filter_files`: with a pattern that compiles, the files it matches in their order; with no
      pattern, or one that does not compile, all files unchanged. */
  function FilterFiles(hook: Hook, files: seq<Path>, env: Env): (r: seq<Path>)
    ensures hook.files.None? || !env.compiles(hook.files.value) ==> r == files
    ensures hook.files.Some? && env.compiles(hook.files.value) ==>
      && IsSubsequence(r, files)
      && (forall k :: 0 <= k < |r| ==> Keeps(env, hook.files.value, r[k]))
      && (forall f :: Keeps(env, hook.files.value, f) ==> multiset(r)[f] == multiset(files)[f])
  {
    match hook.files
    case Some(pattern) =>
      if env.compiles(pattern) then
        var r := Filter(files, f => Keeps(env, pattern, f));
        assert forall k :: 0 <= k < |r| ==> r[k] in r;
        r
      else files
    case None => files
  }

  /** A path with a text form. */
  predicate IsText(f: Path)
  {
    f.TextPath?
  }

  /** `texts` are the texts of `paths`, position by position, and every one of `paths` has one. */
  predicate TextsOf(texts: seq<string>, paths: seq<Path>)
  {
    |texts| == |paths| && forall k :: 0 <= k < |texts| ==> paths[k].TextPath? && texts[k] == paths[k].text
  }

  /** The text forms of the paths that have one, in order; the others are skipped. */
  function PathTexts(files: seq<Path>): (r: seq<string>)
    ensures |r| <= |files|
    ensures forall s :: s in r <==> TextPath(s) in files
  {
    if files == [] then []
    else
      var init := files[..|files| - 1];
      assert files == init + [files[|files| - 1]];
      var last := files[|files| - 1];
      PathTexts(init) + (if last.TextPath? then [last.text] else [])
  }

  /** The `k`-th text is the text of the `k`-th path that has one, and there are as many texts as
      such paths: order and repetitions are kept, the other paths are skipped. */
  lemma {:induction false} PathTextsInOrder(files: seq<Path>)
    ensures TextsOf(PathTexts(files), Filter(files, IsText))
  {
    if files != [] {
      var init := files[..|files| - 1];
      PathTextsInOrder(init);
      assert files == init + [files[|files| - 1]];
    }
  }

  /** When every path has a text form, the texts are exactly the paths, in order. */
  lemma {:induction false} PathTextsAllText(files: seq<Path>)
    requires forall k :: 0 <= k < |files| ==> files[k].TextPath?
    ensures |PathTexts(files)| == |files|
    ensures forall k :: 0 <= k < |files| ==> PathTexts(files)[k] == files[k].text
  {
    if files != [] {
      PathTextsAllText(files[..|files| - 1]);
    }
  }

  /** The argument vector: the words of `entry`, then, when the hook takes file names and some
      files were selected, the text of each selected file.
      The vector starts with the words of `entry`, and holds nothing else unless file names are
      passed; it is empty exactly when `entry` has no word and no file name is added. */
  function Argv(hook: Hook, filtered: seq<Path>): (argv: seq<string>)
    ensures |argv| >= |ShellWords.SplitWords(hook.entry)|
    ensures argv[..|ShellWords.SplitWords(hook.entry)|] == ShellWords.SplitWords(hook.entry)
    ensures !hook.passFilenames ==> argv == ShellWords.SplitWords(hook.entry)
    ensures argv == []
      <==> ShellWords.SplitWords(hook.entry) == [] && (!hook.passFilenames || PathTexts(filtered) == [])
  {
    var words := ShellWords.SplitWords(hook.entry);
    if hook.passFilenames && filtered != [] then
      assert (words + PathTexts(filtered))[..|words|] == words;
      words + PathTexts(filtered)
    else
      assert filtered == [] ==> PathTexts(filtered) == [];
      words
  }

  /** The command-building part of `execute_hook`: split `entry` (falling back to `entry` itself
      should splitting fail), then push the text of each selected file when file names are passed. */
  method BuildArgv(hook: Hook, filtered: seq<Path>) returns (parts: seq<string>)
    ensures parts == Argv(hook, filtered)
  {
    var split := ShellWords.Split(hook.entry);
    parts := if split.Ok? then split.value else [hook.entry];
    if hook.passFilenames && |filtered| > 0 {
      for k := 0 to |filtered|
        invariant parts == ShellWords.SplitWords(hook.entry) + PathTexts(filtered[..k])
      {
        assert filtered[..k + 1][..k] == filtered[..k];
        match filtered[k].ToStr()
        case Some(s) =>
          parts := parts + [s];
        case None =>
      }
      assert filtered[..|filtered|] == filtered;
    }
  }

  /** The result of running one hook. */
  function RunOne(hook: Hook, files: seq<Path>, env: Env): (r: HookResult)
    ensures r.hookId == hook.id
    ensures r.success <==> r.exitCode == Some(0)
  {
    var argv := Argv(hook, FilterFiles(hook, files, env));
    if argv == [] then
      HookResult(hook.id, false, None, "", FailurePrefix + EmptyCommand)
    else
      match env.spawn(argv)
      case Exited(code, out, err) => HookResult(hook.id, code == Some(0), code, out, err)
      case SpawnFailed(message) => HookResult(hook.id, false, None, "", FailurePrefix + message)
  }

  /** A hook succeeds exactly when its program ran and exited with code 0. A hook that did not run
      (empty command or failed start) fails with no exit code, no output and a diagnostic that
      starts with the failure prefix; an empty command is never handed to the operating system. */
  lemma RunOneOutcome(hook: Hook, files: seq<Path>, env: Env)
    ensures var argv := Argv(hook, FilterFiles(hook, files, env));
      RunOne(hook, files, env).success <==>
        (argv != [] && env.spawn(argv).Exited? && env.spawn(argv).code == Some(0))
    ensures var argv := Argv(hook, FilterFiles(hook, files, env));
      argv == [] ==> RunOne(hook, files, env).stderr == "Failed to execute command: Empty command"
    ensures var argv := Argv(hook, FilterFiles(hook, files, env));
      (argv == [] || env.spawn(argv).SpawnFailed?) ==>
        && !RunOne(hook, files, env).success
        && RunOne(hook, files, env).exitCode.None?
        && RunOne(hook, files, env).stdout == ""
        && RunOne(hook, files, env).stderr[..|FailurePrefix|] == FailurePrefix
    ensures var argv := Argv(hook, FilterFiles(hook, files, env));
      argv != [] && env.spawn(argv).Exited? ==>
        && RunOne(hook, files, env).exitCode == env.spawn(argv).code
        && RunOne(hook, files, env).stdout == env.spawn(argv).stdout
        && RunOne(hook, files, env).stderr == env.spawn(argv).stderr
    ensures var argv := Argv(hook, FilterFiles(hook, files, env));
      argv != [] && env.spawn(argv).SpawnFailed? ==>
        RunOne(hook, files, env).stderr == FailurePrefix + env.spawn(argv).message
  {
  }

  /** `execute_hook` (and its copies in the other executors): filter, build the argument vector,
      run it unless it is empty, and report. */
  method ExecuteHook(hook: Hook, files: seq<Path>, env: Env) returns (r: HookResult)
    ensures r == RunOne(hook, files, env)
  {
    var filtered := FilterFiles(hook, files, env);
    var parts := BuildArgv(hook, filtered);
    var outcome: Spawn;
    if |parts| == 0 {
      outcome := SpawnFailed(EmptyCommand);
    } else {
      outcome := env.spawn(parts);
    }
    match outcome
    case Exited(code, out, err) =>
      r := HookResult(hook.id, code == Some(0), code, out, err);
    case SpawnFailed(message) =>
      r := HookResult(hook.id, false, None, "", FailurePrefix + message);
  }

  /** The results of running `hooks` one by one, in order. */
  function RunAll(hooks: seq<Hook>, files: seq<Path>, env: Env): (rs: seq<HookResult>)
    ensures |rs| == |hooks|
    ensures forall k :: 0 <= k < |hooks| ==> rs[k] == RunOne(hooks[k], files, env)
  {
    seq(|hooks|, k requires 0 <= k < |hooks| => RunOne(hooks[k], files, env))
  }

  /** Running two lists of hooks is running their concatenation. */
  lemma RunAllAppend(a: seq<Hook>, b: seq<Hook>, files: seq<Path>, env: Env)
    ensures RunAll(a + b, files, env) == RunAll(a, files, env) + RunAll(b, files, env)
  {
    var whole, left, right := RunAll(a + b, files, env), RunAll(a, files, env), RunAll(b, files, env);
    forall k | 0 <= k < |a| + |b|
      ensures whole[k] == (left + right)[k]
    {
      if k < |a| {
        assert (a + b)[k] == a[k];
      } else {
        assert (a + b)[k] == b[k - |a|];
      }
    }
  }

  /** Running one more hook appends its result. */
  lemma RunAllSnoc(hooks: seq<Hook>, k: nat, files: seq<Path>, env: Env)
    requires k < |hooks|
    ensures RunAll(hooks[..k + 1], files, env) == RunAll(hooks[..k], files, env) + [RunOne(hooks[k], files, env)]
  {
    assert hooks[..k + 1] == hooks[..k] + [hooks[k]];
    RunAllAppend(hooks[..k], [hooks[k]], files, env);
  }

  /** Running a slice of the hooks gives the same slice of the results. */
  lemma RunAllSlice(hooks: seq<Hook>, lo: nat, hi: nat, files: seq<Path>, env: Env)
    requires lo <= hi <= |hooks|
    ensures RunAll(hooks, files, env)[lo..hi] == RunAll(hooks[lo..hi], files, env)
  {
  }

  /** Running the hooks left after taking out position `j` gives the same results minus that one. */
  lemma RunAllRemove(pending: seq<Hook>, j: nat, files: seq<Path>, env: Env)
    requires j < |pending|
    ensures multiset(RunAll(pending, files, env))
      == multiset(RunAll(pending[..j] + pending[j + 1..], files, env)) + multiset{RunOne(pending[j], files, env)}
  {
    var rs := RunAll(pending, files, env);
    RunAllAppend(pending[..j], pending[j + 1..], files, env);
    RunAllSlice(pending, 0, j, files, env);
    RunAllSlice(pending, j + 1, |pending|, files, env);
    assert pending[0..j] == pending[..j] && pending[j + 1..|pending|] == pending[j + 1..];
    assert rs[0..j] == rs[..j] && rs[j + 1..|rs|] == rs[j + 1..];
    MultisetRemove(rs, j);
  }
}
