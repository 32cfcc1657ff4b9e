/** Running .post scripts: `run_command`, `run_command_in_dir` and
    `_run_post`. Syscalls become state updates (cwd, umask) and events. */
module Runner {
  import opened Seqs
  import opened Paths
  import opened World

  /** The command can be launched from `cwd`: shlex gives a first word and
      that file exists and is executable. */
  predicate Launchable(sys: Sys, cwd: Path, cmd: string) {
    var words := sys.env.split(cmd);
    |words| > 0 && sys.env.probe(cwd, words[0]) == Exec
  }

  /** `run_command`: refuses a missing or non-executable command with a
      message, otherwise hands it to the shell. The result is the one event
      that happens; the state is left as it was. */
  function RunCommand(cmd: string, sys: Sys, st: State): (ev: Event)
    ensures ev == Shell(cmd, st.cwd, st.umask) <==> Launchable(sys, st.cwd, cmd)
    ensures ev.Shell? ==> Launchable(sys, st.cwd, cmd)
    ensures ev.CommandNotFound? <==>
      |sys.env.split(cmd)| > 0 && sys.env.probe(st.cwd, sys.env.split(cmd)[0]) == Missing
    ensures ev.CommandNotExecutable? <==>
      |sys.env.split(cmd)| > 0 && sys.env.probe(st.cwd, sys.env.split(cmd)[0]) == NotExec
    ensures IsCommandEvent(ev) && !ev.PostRun?
  {
    var words := sys.env.split(cmd);
    if |words| == 0 then NoCommandWord(cmd)
    else match sys.env.probe(st.cwd, words[0])
      case Missing => CommandNotFound(words[0])
      case NotExec => CommandNotExecutable(words[0])
      case Exec => Shell(cmd, st.cwd, st.umask)
  }

  /** Directory a command runs in: `dir` after a chdir, the current one on
      a dry run (where no chdir happens). */
  function WorkDir(sys: Sys, st: State, dir: Path): Path {
    if sys.cfg.dryRun then st.cwd else dir
  }

  /** `run_command_in_dir`: outside dry-run the command runs only after a
      successful chdir, and the old directory is restored afterwards (the
      process stays in `dir` only when changing back fails). */
  function RunCommandInDir(dir: Path, cmd: string, sys: Sys, st: State): (r: Effect)
    ensures r.st.targets == st.targets && r.st.ledger == st.ledger && r.st.umask == st.umask
    ensures r.st.cwd == (if !sys.cfg.dryRun && sys.env.canChdir(dir) && !sys.env.canChdir(st.cwd)
                         then dir else st.cwd)
    ensures forall ev :: ev in r.out ==> IsCommandEvent(ev) && !ev.PostRun?
    ensures forall ev :: ev in r.out && ev.Shell? ==>
      ev == Shell(cmd, WorkDir(sys, st, dir), st.umask)
    ensures Shell(cmd, WorkDir(sys, st, dir), st.umask) in r.out <==>
      (sys.cfg.dryRun || sys.env.canChdir(dir)) && Launchable(sys, WorkDir(sys, st, dir), cmd)
    ensures !sys.cfg.dryRun && !sys.env.canChdir(dir) ==> r.out == [ChdirFailed(dir)]
    ensures |Filter(r.out, IsShell)| <= 1
  {
    if sys.cfg.dryRun then
      Effect(st, [RunCommand(cmd, sys, st)])
    else if !sys.env.canChdir(dir) then
      Effect(st, [ChdirFailed(dir)])
    else
      var ev := RunCommand(cmd, sys, st.(cwd := dir));
      if sys.env.canChdir(st.cwd) then Effect(st, [ev])
      else
        FilterConcat([ev], [ChdirFailed(st.cwd)], IsShell);
        FilterNone([ChdirFailed(st.cwd)], IsShell);
        Effect(st.(cwd := dir), [ev, ChdirFailed(st.cwd)])
  }

  /** The directory a post script runs in: the path itself for a
      directory, its parent otherwise. */
  function PostDir(path: Path, isDir: bool): Path {
    if isDir then path else Dirname(path)
  }

  /** `_run_post(obj, script)` for an object at `path` whose destination is
      a directory when `isDir`: nothing under NO_POST or with no script;
      otherwise the command runs under the administrator's umask, in `path`
      itself for a directory and in its parent otherwise, and the umask is
      077 again afterwards. */
  function RunPost(path: Path, isDir: bool, script: string, sys: Sys, st: State): (r: Effect)
    ensures r.st.targets == st.targets && r.st.ledger == st.ledger
    ensures sys.cfg.noPost || script == "" ==> r == Effect(st, [])
    ensures !sys.cfg.noPost && script != "" ==> r.st.umask == StrictUmask
    ensures forall ev :: ev in r.out ==> IsCommandEvent(ev)
    ensures Filter(r.out, IsPostRun) == PostsOf(sys, path, script)
    ensures forall ev :: ev in r.out && ev.Shell? ==>
      ev.cmd == script && ev.umask == sys.cfg.origUmask &&
      ev.cwd == WorkDir(sys, st, PostDir(path, isDir))
    ensures |Filter(r.out, IsShell)| <= 1
    ensures !sys.cfg.noPost && script != "" ==>
      (Shell(script, WorkDir(sys, st, PostDir(path, isDir)), sys.cfg.origUmask) in r.out <==>
       (sys.cfg.dryRun || sys.env.canChdir(PostDir(path, isDir))) &&
       Launchable(sys, WorkDir(sys, st, PostDir(path, isDir)), script))
  {
    if sys.cfg.noPost || script == "" then Effect(st, [])
    else
      var ran := RunCommandInDir(PostDir(path, isDir), script, sys, st.(umask := sys.cfg.origUmask));
      FilterConcat([PostRun(path, script)], ran.out, IsPostRun);
      FilterNone(ran.out, IsPostRun);
      FilterConcat([PostRun(path, script)], ran.out, IsShell);
      FilterNone([PostRun(path, script)], IsShell);
      Effect(ran.st.(umask := StrictUmask), [PostRun(path, script)] + ran.out)
  }

  /** A post script whose command resolves to an executable file runs on a
      dry run too, from the current directory and with the administrator's
      umask: the dry run only leaves out the chdir. */
  lemma DryRunStillRunsPost(path: Path, isDir: bool, script: string, sys: Sys, st: State)
    requires sys.cfg.dryRun && !sys.cfg.noPost && script != ""
    requires Launchable(sys, st.cwd, script)
    ensures Shell(script, st.cwd, sys.cfg.origUmask) in RunPost(path, isDir, script, sys, st).out
    ensures RunPost(path, isDir, script, sys, st).st.cwd == st.cwd
  {
    var ran := RunCommandInDir(PostDir(path, isDir), script, sys, st.(umask := sys.cfg.origUmask));
    assert Shell(script, st.cwd, sys.cfg.origUmask) in ran.out;
  }
}
