/** Command-line handling of the synctool client: the typo guard on argv,
    the target/action loop of `get_options` and the option-combination
    check. The getopt library itself is not modelled: its output (the
    recognised options in order, and the left-over arguments) is an input. */
module Options {
  import opened Results
  import opened Seqs
  import opened Paths

  /** An option as getopt returns it. `Setting` stands for the options that
      only set a configuration or output parameter: --conf, --terse,
      --fullpath, --color, --no-color, --verbose, --quiet, --unix,
      --masterlog and --nodename. */
  datatype Opt =
    | Help                      // -h, --help
    | Version                   // --version
    | DiffOpt(arg: string)      // -d, --diff=
    | SingleOpt(arg: string)    // -1, --single=
    | RefOpt(arg: string)       // -r, --ref=
    | EraseSavedOpt             // -e, --erase-saved
    | FixOpt                    // -f, --fix
    | NoPostOpt                 // --no-post
    | Setting(name: string, arg: string)

  /** The action codes `get_options` returns. */
  datatype Action = ActionDefault | ActionDiff | ActionEraseSaved | ActionReference

  /** The seven booleans handed to `option_combinations`. */
  datatype Flags = Flags(
    diff: bool, single: bool, reference: bool, eraseSaved: bool,
    upload: bool, suffix: bool, fix: bool)

  /** The five rules of `option_combinations`, in the order they are tested. */
  datatype Conflict =
    | EraseSavedConflict
    | UploadConflict
    | SuffixWithoutUpload
    | DiffConflict
    | ReferenceConflict

  /** Misspellings the typo guard catches, by the message it prints. */
  datatype Typo = DidYouMeanDiff | DidYouMeanReference | DidYouMeanRef

  /** Why the client exits while reading its options. */
  datatype ExitReason =
    | TypoGuard(typo: Typo)
    | ExcessArguments
    | HelpRequested
    | VersionRequested
    | MissingFilename
    | NotFullPath
    | BadCombination(conflict: Conflict)

  datatype Exit = Exit(code: int, reason: ExitReason)

  /** What `get_options` leaves behind for `main`: the action, the target
      list `SINGLE_FILES`, and the DRY_RUN and NO_POST switches. */
  datatype Settings = Settings(action: Action, targets: seq<Path>, dryRun: bool, noPost: bool)

  // ---------------------------------------------------------------------
  // option_combinations

  /** Rule `c` of `option_combinations` is broken by `f`. */
  predicate Violates(f: Flags, c: Conflict) {
    match c
    case EraseSavedConflict => f.eraseSaved && (f.diff || f.reference || f.upload)
    case UploadConflict => f.upload && (f.diff || f.single || f.reference)
    case SuffixWithoutUpload => f.suffix && !f.upload
    case DiffConflict => f.diff && (f.single || f.reference || f.fix)
    case ReferenceConflict => f.reference && (f.single || f.fix)
  }

  /** Position of a rule in the sequence of tests. */
  function Rank(c: Conflict): nat {
    match c
    case EraseSavedConflict => 0
    case UploadConflict => 1
    case SuffixWithoutUpload => 2
    case DiffConflict => 3
    case ReferenceConflict => 4
  }

  /** `option_combinations`: the first rule broken, whose message is printed
      before exiting with status 1; None when the combination is accepted. */
  function FirstConflict(f: Flags): (c: Option<Conflict>)
    ensures c.None? <==> forall k :: !Violates(f, k)
    ensures c.Some? ==> Violates(f, c.value)
    ensures c.Some? ==> forall k :: Rank(k) < Rank(c.value) ==> !Violates(f, k)
  {
    if Violates(f, EraseSavedConflict) then Some(EraseSavedConflict)
    else if Violates(f, UploadConflict) then Some(UploadConflict)
    else if Violates(f, SuffixWithoutUpload) then Some(SuffixWithoutUpload)
    else if Violates(f, DiffConflict) then Some(DiffConflict)
    else if Violates(f, ReferenceConflict) then Some(ReferenceConflict)
    else None
  }

  /** With upload and suffix off, as the client always passes them, the
      accepted combinations are: --diff alone, --ref alone, and any mix of
      --single, --erase-saved and --fix. */
  lemma ClientCombinations(f: Flags)
    requires !f.upload && !f.suffix
    ensures FirstConflict(f).None? <==>
      && (f.diff ==> !f.single && !f.reference && !f.fix && !f.eraseSaved)
      && (f.reference ==> !f.single && !f.fix && !f.eraseSaved)
  {
  }

  // ---------------------------------------------------------------------
  // be_careful_with_getopt

  /** Python's `arg[:2] == two` for a two-character string. */
  predicate StartsWith2(arg: string, two: string)
    requires |two| == 2
  {
    |arg| >= 2 && arg[..2] == two
  }

  /** The guard applied to one argv word: `-d…f…` suggests --diff, `-r…f…`
      suggests --reference (two or more 'e') or --ref. */
  function TypoOf(arg: string): (t: Option<Typo>)
    ensures t.None? <==> !((StartsWith2(arg, "-d") || StartsWith2(arg, "-r")) && 'f' in arg)
    ensures t.Some? ==> 'f' in arg && |arg| >= 2 && arg[0] == '-' && arg[1] in {'d', 'r'}
    ensures t == Some(DidYouMeanDiff) <==> StartsWith2(arg, "-d") && 'f' in arg
    ensures t == Some(DidYouMeanReference) <==>
      StartsWith2(arg, "-r") && 'f' in arg && multiset(arg)['e'] >= 2
    ensures t == Some(DidYouMeanRef) <==>
      StartsWith2(arg, "-r") && 'f' in arg && multiset(arg)['e'] < 2
  {
    if StartsWith2(arg, "-d") && 'f' in arg then Some(DidYouMeanDiff)
    else if StartsWith2(arg, "-r") && 'f' in arg then
      Some(if multiset(arg)['e'] >= 2 then DidYouMeanReference else DidYouMeanRef)
    else None
  }

  /** `be_careful_with_getopt` over all of sys.argv (the program name
      included): the typo of the first offending word, on which the client
      exits with status 1. */
  function BeCareful(argv: seq<string>): (r: Option<Typo>)
    ensures r.None? <==> forall i :: 0 <= i < |argv| ==> TypoOf(argv[i]).None?
    ensures r.Some? ==> exists i :: (0 <= i < |argv| && TypoOf(argv[i]) == r &&
      forall j :: 0 <= j < i ==> TypoOf(argv[j]).None?)
  {
    if |argv| == 0 then None
    else if TypoOf(argv[0]).Some? then TypoOf(argv[0])
    else
      var r := BeCareful(argv[1..]);
      assert r.Some? ==> exists i :: (0 <= i < |argv| && TypoOf(argv[i]) == r &&
        forall j :: 0 <= j < i ==> TypoOf(argv[j]).None?) by {
        if r.Some? {
          var i :| 0 <= i < |argv[1..]| && TypoOf(argv[1..][i]) == r &&
            forall j :: 0 <= j < i ==> TypoOf(argv[1..][j]).None?;
          assert TypoOf(argv[i + 1]) == r;
          assert forall j :: 0 <= j < i + 1 ==> TypoOf(argv[j]).None? by {
            forall j | 0 <= j < i + 1 ensures TypoOf(argv[j]).None? {
              if j > 0 { assert argv[j] == argv[1..][j - 1]; }
            }
          }
        }
      }
      r
  }

  /** An attached `-d` argument is caught by the guard whenever it holds an
      'f' (`-d/etc/fstab` is refused) ... */
  lemma GuardRefusesAttachedDiffArgument(prog: string, p: string)
    requires TypoOf(prog).None? && 'f' in p
    ensures BeCareful([prog, "-d" + p]) == Some(DidYouMeanDiff)
  {
    var a := "-d" + p;
    var k :| 0 <= k < |p| && p[k] == 'f';
    assert a[0] == '-' && a[1] == 'd' && a[k + 2] == 'f';
    DashDWithF(a);
    GuardOfTwoWords(prog, a);
  }

  /** ... while the long spelling `--diff=/etc/fstab` passes. */
  lemma GuardAcceptsLongDiffOption(prog: string, p: string)
    requires TypoOf(prog).None?
    ensures BeCareful([prog, "--diff=" + p]).None?
  {
    var a := "--diff=" + p;
    assert a[0] == '-' && a[1] == '-';
    NotAnOption(a);
    GuardOfTwoWords(prog, a);
  }

  lemma DashDWithF(a: string)
    requires |a| >= 2 && a[0] == '-' && a[1] == 'd' && 'f' in a
    ensures TypoOf(a) == Some(DidYouMeanDiff)
  {
    assert a[..2] == "-d";
  }

  lemma GuardOfTwoWords(a: string, b: string)
    requires TypoOf(a).None?
    ensures BeCareful([a, b]) == TypoOf(b)
  {
    assert [a, b][1..] == [b];
    assert [b][1..] == [];
  }

  /** A word not starting with "-d" or "-r" passes the guard. */
  lemma NotAnOption(arg: string)
    requires |arg| >= 2 && (arg[0] != '-' || arg[1] !in {'d', 'r'})
    ensures TypoOf(arg).None?
  {
  }

  // ---------------------------------------------------------------------
  // The target/action loop of get_options (reference definitions)

  /** The file argument of `-d`, `-1` or `-r`. */
  function PathArg(o: Opt): Option<string> {
    match o
    case DiffOpt(a) => Some(a)
    case SingleOpt(a) => Some(a)
    case RefOpt(a) => Some(a)
    case _ => None
  }

  /** Every `-d`/`-1`/`-r` argument after `strip_path`, in command-line order. */
  function PathArgs(opts: seq<Opt>, strip: string -> string): (ps: seq<string>)
    ensures |ps| <= |opts|
  {
    if |opts| == 0 then []
    else
      var ps := PathArgs(opts[..|opts| - 1], strip);
      match PathArg(opts[|opts| - 1])
      case Some(a) => ps + [strip(a)]
      case None => ps
  }

  /** The action an option selects, if any: `-1` and the rest select none. */
  function ActionOf(o: Opt): Option<Action> {
    match o
    case DiffOpt(_) => Some(ActionDiff)
    case RefOpt(_) => Some(ActionReference)
    case EraseSavedOpt => Some(ActionEraseSaved)
    case _ => None
  }

  /** The action of the last `-d`, `-r` or `-e`; the default action when
      there is none. */
  function LastAction(opts: seq<Opt>): Action {
    if |opts| == 0 then ActionDefault
    else match ActionOf(opts[|opts| - 1])
      case Some(a) => a
      case None => LastAction(opts[..|opts| - 1])
  }

  /** The validity flags the loop raises; upload and suffix are never set. */
  function FlagsOf(opts: seq<Opt>): Flags {
    Flags(
      diff := exists i :: 0 <= i < |opts| && opts[i].DiffOpt?,
      single := exists i :: 0 <= i < |opts| && opts[i].SingleOpt?,
      reference := exists i :: 0 <= i < |opts| && opts[i].RefOpt?,
      eraseSaved := EraseSavedOpt in opts,
      upload := false,
      suffix := false,
      fix := FixOpt in opts)
  }

  /** Why a stripped file argument is refused, if it is. */
  function PathError(f: string): Option<ExitReason> {
    if f == "" then Some(MissingFilename)
    else if f[0] != '/' then Some(NotFullPath)
    else None
  }

  lemma PathErrorIsNotFullPath(f: string)
    ensures PathError(f).None? <==> IsFullPath(f)
  {
  }

  /** The first refusal among the stripped file arguments. */
  function FirstPathError(ps: seq<string>): (r: Option<ExitReason>)
    ensures r.Some? ==> r.value in {MissingFilename, NotFullPath}
    ensures r.None? <==> forall i :: 0 <= i < |ps| ==> PathError(ps[i]).None?
  {
    if |ps| == 0 then None
    else if PathError(ps[0]).Some? then PathError(ps[0])
    else
      var r := FirstPathError(ps[1..]);
      assert forall i :: 0 < i < |ps| ==> ps[i] == ps[1..][i - 1];
      r
  }

  // ---------------------------------------------------------------------
  // The target/action loop of get_options (as the code runs it)

  /** State of the loop: running with its variables, or stopped by
      `sys.exit(1)` on a bad file argument. */
  datatype Scan =
    | Running(action: Action, targets: seq<Path>, flags: Flags, dryRun: bool, noPost: bool)
    | Stopped(reason: ExitReason)

  const Start: Scan := Running(ActionDefault, [], Flags(false, false, false, false, false, false, false), true, false)

  /** Record one accepted file argument. */
  function AddTarget(s: Scan, f: string): Scan
    requires s.Running?
  {
    match PathError(f)
    case Some(e) => Stopped(e)
    case None => s.(targets := AppendIfAbsent(s.targets, f))
  }

  /** The flags one option raises. */
  function RaiseFlags(f: Flags, o: Opt): Flags {
    f.(diff := f.diff || o.DiffOpt?,
       single := f.single || o.SingleOpt?,
       reference := f.reference || o.RefOpt?,
       eraseSaved := f.eraseSaved || o == EraseSavedOpt,
       fix := f.fix || o == FixOpt)
  }

  /** The assignments of one loop branch before its file argument is
      looked at: `-d` and `-r` select their action and `-e` selects
      erase-saved, each raising its flag (as does `-1`); `-f` clears
      DRY_RUN and `--no-post` sets NO_POST. */
  function Assign(s: Scan, o: Opt): (r: Scan)
    requires s.Running?
    ensures r.Running? && r.targets == s.targets
  {
    s.(action := if ActionOf(o).Some? then ActionOf(o).value else s.action,
       flags := RaiseFlags(s.flags, o),
       dryRun := s.dryRun && o != FixOpt,
       noPost := s.noPost || o == NoPostOpt)
  }

  /** One iteration of the loop: the branch's assignments, then its file
      argument, if it has one. Options handled by earlier loops and the
      settings fall through without effect here. */
  function Step(s: Scan, o: Opt, strip: string -> string): Scan {
    if s.Stopped? then s
    else
      var a := Assign(s, o);
      match PathArg(o)
      case Some(arg) => AddTarget(a, strip(arg))
      case None => a
  }

  lemma FirstPathErrorAppend(ps: seq<string>, f: string)
    ensures FirstPathError(ps + [f]) ==
      if FirstPathError(ps).Some? then FirstPathError(ps) else PathError(f)
  {
    if |ps| > 0 {
      assert (ps + [f])[1..] == ps[1..] + [f];
      FirstPathErrorAppend(ps[1..], f);
    } else {
      assert (ps + [f])[1..] == [];
    }
  }

  /** The options loop: it stops on the first bad file argument; otherwise
      the target list is the file arguments without repetitions in
      first-occurrence order, and the action is that of the last `-d`, `-r`
      or `-e`. */
  function ScanOpts(opts: seq<Opt>, strip: string -> string): (s: Scan)
    ensures ScanMeets(s, opts, strip)
  {
    if |opts| == 0 then Start
    else
      var init := opts[..|opts| - 1];
      var prev := ScanOpts(init, strip);
      StepMeets(prev, init, opts[|opts| - 1], strip);
      assert init + [opts[|opts| - 1]] == opts;
      Step(prev, opts[|opts| - 1], strip)
  }

  /** What the options loop promises after reading `opts`. */
  ghost predicate ScanMeets(s: Scan, opts: seq<Opt>, strip: string -> string) {
    && (s.Running? <==> FirstPathError(PathArgs(opts, strip)).None?)
    && (s.Stopped? ==> s.reason == FirstPathError(PathArgs(opts, strip)).value)
    && (s.Running? ==>
        && IsDedupOf(s.targets, PathArgs(opts, strip))
        && s.action == LastAction(opts)
        && s.flags == FlagsOf(opts)
        && s.dryRun == (FixOpt !in opts)
        && s.noPost == (NoPostOpt in opts))
  }

  /** One more iteration keeps the loop's promise. */
  lemma StepMeets(prev: Scan, init: seq<Opt>, o: Opt, strip: string -> string)
    requires ScanMeets(prev, init, strip)
    ensures ScanMeets(Step(prev, o, strip), init + [o], strip)
  {
    var opts := init + [o];
    assert opts[..|opts| - 1] == init;
    if PathArg(o).None? {
      assert PathArgs(opts, strip) == PathArgs(init, strip);
      if prev.Running? {
        StepFields(prev, init, o, strip);
      }
    } else {
      StepWithPath(prev, init, o, strip);
    }
  }

  /** The iteration for an option carrying a file argument: the loop stops
      exactly at the first bad one and otherwise extends the de-duplicated
      target list. */
  lemma StepWithPath(prev: Scan, init: seq<Opt>, o: Opt, strip: string -> string)
    requires ScanMeets(prev, init, strip) && PathArg(o).Some?
    ensures ScanMeets(Step(prev, o, strip), init + [o], strip)
  {
    var opts := init + [o];
    var ps := PathArgs(init, strip);
    var f := strip(PathArg(o).value);
    assert opts[..|opts| - 1] == init;
    assert PathArgs(opts, strip) == ps + [f];
    FirstPathErrorAppend(ps, f);
    var next := Step(prev, o, strip);
    if prev.Running? {
      if PathError(f).None? {
        AppendIfAbsentDedup(prev.targets, ps, f);
        StepFields(prev, init, o, strip);
      }
    }
  }

  /** One more iteration keeps the action and the flags of the loop in step
      with the options read so far. */
  lemma StepFields(prev: Scan, init: seq<Opt>, o: Opt, strip: string -> string)
    requires prev.Running? && Step(prev, o, strip).Running?
    requires prev.action == LastAction(init) && prev.flags == FlagsOf(init)
    requires prev.dryRun == (FixOpt !in init) && prev.noPost == (NoPostOpt in init)
    ensures var next := Step(prev, o, strip);
      && next.action == LastAction(init + [o])
      && next.flags == FlagsOf(init + [o])
      && next.dryRun == (FixOpt !in init + [o])
      && next.noPost == (NoPostOpt in init + [o])
  {
    var opts := init + [o];
    assert opts[..|opts| - 1] == init;
    StepAction(prev, init, o, strip);
    StepFlags(prev, init, o, strip);
  }

  lemma StepAction(prev: Scan, init: seq<Opt>, o: Opt, strip: string -> string)
    requires prev.Running? && Step(prev, o, strip).Running?
    ensures Step(prev, o, strip).action == if ActionOf(o).Some? then ActionOf(o).value else prev.action
  {
  }

  lemma StepFlags(prev: Scan, init: seq<Opt>, o: Opt, strip: string -> string)
    requires prev.Running? && Step(prev, o, strip).Running?
    requires prev.flags == FlagsOf(init)
    requires prev.dryRun == (FixOpt !in init) && prev.noPost == (NoPostOpt in init)
    ensures var next := Step(prev, o, strip);
      && next.flags == FlagsOf(init + [o])
      && next.dryRun == (FixOpt !in init + [o])
      && next.noPost == (NoPostOpt in init + [o])
  {
    var opts := init + [o];
    FlagsOfAppend(init, o);
    assert FixOpt in opts <==> FixOpt in init || o == FixOpt;
    assert NoPostOpt in opts <==> NoPostOpt in init || o == NoPostOpt;
  }

  lemma FlagsOfAppend(init: seq<Opt>, o: Opt)
    ensures FlagsOf(init + [o]) == RaiseFlags(FlagsOf(init), o)
  {
    var opts := init + [o];
    assert forall i :: 0 <= i < |init| ==> opts[i] == init[i];
    assert opts[|init|] == o;
    assert forall x :: x in opts <==> x in init || x == o;
  }

  /** All targets the loop accepts are full destination paths. */
  lemma ScanTargetsAreFullPaths(opts: seq<Opt>, strip: string -> string)
    requires ScanOpts(opts, strip).Running?
    ensures forall t :: t in ScanOpts(opts, strip).targets ==> IsFullPath(t)
  {
    var ps := PathArgs(opts, strip);
    forall k | 0 <= k < |ps| ensures IsFullPath(ps[k]) {
      FirstPathErrorNoneAll(ps, k);
    }
  }

  lemma {:induction false} FirstPathErrorNoneAll(ps: seq<string>, k: nat)
    requires FirstPathError(ps).None? && k < |ps|
    ensures IsFullPath(ps[k])
  {
    if k > 0 {
      FirstPathErrorNoneAll(ps[1..], k - 1);
    }
  }

  // ---------------------------------------------------------------------
  // get_options

  /** An option the first loop of `get_options` exits on. */
  predicate ExitsEarly(o: Opt) {
    o == Help || o == Version
  }

  /** The exit of an option the first loop exits on. */
  function EarlyExit(o: Opt): Exit
    requires ExitsEarly(o)
  {
    if o == Help then Exit(1, HelpRequested) else Exit(0, VersionRequested)
  }

  /** The first loop over the options: --help exits 1, --version exits 0,
      and whichever of the two comes first decides. */
  function HelpOrVersion(opts: seq<Opt>): (r: Option<Exit>)
    ensures r.None? <==> Help !in opts && Version !in opts
    ensures r.Some? ==> r.value == Exit(1, HelpRequested) || r.value == Exit(0, VersionRequested)
    ensures forall i :: (0 <= i < |opts| && ExitsEarly(opts[i]) &&
      forall j :: 0 <= j < i ==> !ExitsEarly(opts[j])) ==> r == Some(EarlyExit(opts[i]))
  {
    if |opts| == 0 then None
    else if opts[0] == Help then Some(Exit(1, HelpRequested))
    else if opts[0] == Version then Some(Exit(0, VersionRequested))
    else
      var r := HelpOrVersion(opts[1..]);
      assert forall i :: 0 < i < |opts| ==> opts[i] == opts[1..][i - 1];
      r
  }

  /** `get_options`: `argv` is sys.argv, `opts` and `args` are what getopt
      made of it, `strip` is `synctool.lib.strip_path`. */
  function GetOptions(argv: seq<string>, opts: seq<Opt>, args: seq<string>, strip: string -> string)
    : (r: Result<Settings, Exit>)
    ensures r.Success? <==>
      && BeCareful(argv).None?
      && |args| == 0
      && Help !in opts && Version !in opts
      && (forall f :: f in PathArgs(opts, strip) ==> IsFullPath(f))
      && FirstConflict(FlagsOf(opts)).None?
    ensures r.Success? ==> IsDedupOf(r.value.targets, PathArgs(opts, strip))
    ensures r.Success? ==> forall t :: t in r.value.targets ==> IsFullPath(t)
    ensures r.Success? ==> r.value.action == LastAction(opts)
    ensures r.Success? ==> r.value.dryRun == (FixOpt !in opts) && r.value.noPost == (NoPostOpt in opts)
    ensures r.Failure? ==> (r.error.code == 0 <==> r.error.reason == VersionRequested)
    ensures r.Failure? && r.error.reason != VersionRequested ==> r.error.code == 1
    ensures BeCareful(argv).Some? ==> r == Failure(Exit(1, TypoGuard(BeCareful(argv).value)))
    ensures BeCareful(argv).None? && |args| > 0 ==> r == Failure(Exit(1, ExcessArguments))
    ensures BeCareful(argv).None? && |args| == 0 && HelpOrVersion(opts).Some? ==>
      r == Failure(HelpOrVersion(opts).value)
    ensures (BeCareful(argv).None? && |args| == 0 && HelpOrVersion(opts).None? &&
             FirstPathError(PathArgs(opts, strip)).Some?) ==>
      r == Failure(Exit(1, FirstPathError(PathArgs(opts, strip)).value))
    ensures (BeCareful(argv).None? && |args| == 0 && HelpOrVersion(opts).None? &&
             FirstPathError(PathArgs(opts, strip)).None? && FirstConflict(FlagsOf(opts)).Some?) ==>
      r == Failure(Exit(1, BadCombination(FirstConflict(FlagsOf(opts)).value)))
  {
    if BeCareful(argv).Some? then Failure(Exit(1, TypoGuard(BeCareful(argv).value)))
    else if |args| > 0 then Failure(Exit(1, ExcessArguments))
    else if HelpOrVersion(opts).Some? then Failure(HelpOrVersion(opts).value)
    else
      var s := ScanOpts(opts, strip);
      AllFullPathsIffNoError(PathArgs(opts, strip));
      if s.Stopped? then Failure(Exit(1, s.reason))
      else
        ScanTargetsAreFullPaths(opts, strip);
        match FirstConflict(s.flags)
        case Some(c) => Failure(Exit(1, BadCombination(c)))
        case None => Success(Settings(s.action, s.targets, s.dryRun, s.noPost))
  }

  lemma {:induction false} AllFullPathsIffNoError(ps: seq<string>)
    ensures FirstPathError(ps).None? <==> forall f :: f in ps ==> IsFullPath(f)
  {
    if |ps| > 0 {
      AllFullPathsIffNoError(ps[1..]);
      PathErrorIsNotFullPath(ps[0]);
      assert forall f :: f in ps <==> f == ps[0] || f in ps[1..];
    }
  }

  /** `--erase-saved` together with `--ref=<full path>` is refused with
      status 1 before anything else happens. */
  lemma EraseSavedWithRefIsRefused(argv: seq<string>, a: string, strip: string -> string)
    requires BeCareful(argv).None?
    requires IsFullPath(strip(a))
    ensures GetOptions(argv, [EraseSavedOpt, RefOpt(a)], [], strip)
      == Failure(Exit(1, BadCombination(EraseSavedConflict)))
  {
    var opts := [EraseSavedOpt, RefOpt(a)];
    assert opts[..1] == [EraseSavedOpt] && opts[..1][..0] == [];
    assert PathArgs(opts, strip) == [strip(a)];
    assert opts[1..] == [RefOpt(a)] && opts[1..][1..] == [];
    assert HelpOrVersion(opts).None?;
    assert FlagsOf(opts).eraseSaved && FlagsOf(opts).reference by {
      assert opts[1].RefOpt?;
    }
    AllFullPathsIffNoError([strip(a)]);
  }
}
