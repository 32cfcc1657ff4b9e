/** The values the client's decision logic works on: tree entries as the
    walker hands them over, the effects the client has on the system (as a
    trace of events), its mutable state (the target list `SINGLE_FILES`, the
    `DIR_CHANGED` ledger, umask and working directory), and the parts of the
    system it only observes (configuration and filesystem/process oracles). */
module World {
  import opened Seqs
  import opened Paths

  /** What `SyncStat` reports about a path: `exists()` is `!Absent?`,
      `is_dir()` is `Dir?`. */
  datatype Stat = Absent | Dir | NonDir

  /** One resolved entry of the overlay or delete tree.
      - `srcIsDir`: `obj.src_stat.is_dir()`
      - `dest`: `obj.dest_stat` of `destPath`
      - `saved`: the stat of `destPath + '.saved'`
      - `parent`: the stat of `dirname(destPath)`
      - `upToDate`: what `obj.check()` returns (True when nothing differed;
        in fix mode the check also repairs what differed). */
  datatype Entry = Entry(
    srcPath: Path,
    srcIsDir: bool,
    destPath: Path,
    dest: Stat,
    saved: Stat,
    parent: Stat,
    upToDate: bool)

  /** `post_dict`: destination path to the .post script that goes with it. */
  type PostDict = map<Path, string>

  /** The two trees `synctool.overlay.visit` is called on. */
  datatype Tree = OverlayTree | DeleteTree

  /** The callback a walk is run with. */
  datatype Mode =
    | Overlay            // _overlay_callback
    | Delete             // _delete_callback
    | EraseSaved         // _erase_saved_callback
    | SingleOverlay      // _single_overlay_callback
    | SingleDelete       // _single_delete_callback
    | SingleEraseSaved   // _single_erase_saved_callback
    | Reference          // _reference_callback
    | Diff               // _diff_callback

  /** Callbacks that work on the target list. */
  predicate Targeted(m: Mode) {
    !(m.Overlay? || m.Delete? || m.EraseSaved?)
  }

  /** Observable effects, in the order they happen. */
  datatype Event =
    | Checked(path: Path)                     // obj.check()
    | Deleted(path: Path)                     // vnode.harddelete()
    | DirectorySkipped(path: Path)            // "destination is a directory ..., skipped"
    | UpToDate(path: Path)                    // "... is up to date"
    | SourceShown(src: Path)                  // print obj.print_src()
    | DiffStarted(argv: seq<string>)          // subprocess.call(cmd_arr)
    | NotInTree(path: Path)                   // "... is not in the overlay tree"
    | PostRun(path: Path, script: string)     // _run_post goes ahead for obj.dest_path
    | ChdirFailed(dir: Path)                  // "error changing directory to ..."
    | CommandNotFound(file: string)           // "error: command ... not found"
    | CommandNotExecutable(file: string)      // "warning: file ... is not executable"
    | NoCommandWord(cmd: string)              // shlex.split(cmd) gave no words
    | Shell(cmd: string, cwd: Path, umask: int)  // synctool.lib.shell_command(cmd)

  predicate IsPostRun(ev: Event) { ev.PostRun? }
  predicate IsShell(ev: Event) { ev.Shell? }

  /** The events running a post script can produce. */
  predicate IsCommandEvent(ev: Event) {
    ev.PostRun? || ev.ChdirFailed? || ev.CommandNotFound? || ev.CommandNotExecutable? ||
    ev.NoCommandWord? || ev.Shell?
  }

  /** A .post script registered for a changed directory in `DIR_CHANGED`:
      whether the directory stat said it is a directory, and the script. */
  datatype Pending = Pending(isDir: bool, script: string)

  /** `DIR_CHANGED`: directory path to pending script. Python 2 leaves the
      iteration order of a dict unspecified; the model iterates in the
      order the keys were first registered. */
  datatype Ledger = Ledger(order: seq<Path>, pending: map<Path, Pending>) {
    ghost predicate Valid() {
      NoDup(order) && forall k :: k in pending <==> k in order
    }
  }

  const EmptyLedger: Ledger := Ledger([], map[])

  /** `DIR_CHANGED[key] = pair`: a second registration of the same key
      replaces the first, so every key stays present once. */
  function Register(l: Ledger, key: Path, p: Pending): (r: Ledger)
    ensures r.pending == l.pending[key := p]
    ensures key in l.pending ==> r.order == l.order
    ensures key !in l.pending ==> r.order == l.order + [key]
    ensures l.Valid() ==> r.Valid()
  {
    if key in l.pending then l.(pending := l.pending[key := p])
    else Ledger(l.order + [key], l.pending[key := p])
  }

  /** Mutable state of one client run. */
  datatype State = State(
    targets: seq<Path>,   // SINGLE_FILES
    ledger: Ledger,       // DIR_CHANGED
    umask: int,           // the process umask
    cwd: Path)            // the process working directory

  /** A state together with the events that led to it, in order. */
  datatype Effect = Effect(st: State, out: seq<Event>)

  /** What a command's first word resolves to, seen from a directory. */
  datatype CmdStat = Missing | NotExec | Exec

  /** Run-wide settings: DRY_RUN, NO_POST, the umask the process started
      with (ORIG_UMASK) and the configured diff command. */
  datatype Config = Config(dryRun: bool, noPost: bool, origUmask: int, diffCmd: string)

  /** Oracles for what the model cannot compute:
      - `split`: shlex.split (no words when it yields none or fails)
      - `probe`: SyncStat of a command file looked up from a directory
      - `canChdir`: whether os.chdir to a directory succeeds. */
  datatype Env = Env(
    split: string -> seq<string>,
    probe: (Path, string) -> CmdStat,
    canChdir: Path -> bool)

  datatype Sys = Sys(cfg: Config, env: Env)

  /** The umask 077 the client works under. */
  const StrictUmask: int := 0x3F

  /** The post-script launch `_run_post` makes for `path`, if it goes ahead
      under NO_POST and with this script. */
  function PostsOf(sys: Sys, path: Path, script: string): seq<Event> {
    if !sys.cfg.noPost && script != "" then [PostRun(path, script)] else []
  }
}
