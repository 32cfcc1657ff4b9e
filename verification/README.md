# synctool client core in Dafny

This project models the decision logic of the synctool client
(`synctool_client.py`) and of its update helper (`synctool/update.py`), and
proves properties of that model.

The client walks two trees. The overlay tree holds the files to install;
the delete tree holds the files to remove. For every entry the walker
resolves, the client calls one of eight callbacks. A callback checks,
repairs or deletes the entry and may run the entry's `.post` script. It
returns `(go_on, changed)` to the walker. The targeted callbacks (`-1`,
`-d`, `-r`, and `-e` with targets) work on the target list `SINGLE_FILES`.
They remove each target they meet and stop the walk once the list is
empty. When a targeted entry changes, they register its parent
directory's `.post` script in `DIR_CHANGED`. After each pass every
registered script is run once. A `.post` script runs under the
administrator's umask, in the entry's directory, and the client goes back
to umask 077 afterwards. `get_options` turns the command line into an
action and a target list, and `main` picks the passes from those.

The update helper does four things:

- it parses the LATEST version file;
- it compares the latest version with the installed one;
- it picks a local file name that is not taken;
- it decides whether a download succeeded: a size check first, then a
  SHA-512 or MD5 checksum.

Modules (one file each):

- `Results`: `Option` and `Result`.
- `Seqs`: list helpers, namely duplicate-freedom, first-occurrence
  removal and filtering.
- `Paths`: `os.path.dirname` and the `.saved` backup name.
- `Text`: Python 2 `str.strip()`, `str.split()` and `'%d'`.
- `World`: entries, events, the client state (target list, `DIR_CHANGED`
  ledger, umask, working directory) and the configuration and filesystem
  oracles.
- `Runner`: `run_command`, `run_command_in_dir` and `_run_post`.
- `Callbacks`: the eight traversal callbacks.
- `Options`: `be_careful_with_getopt`, the loop of `get_options` and
  `option_combinations`.
- `Passes`: a stub of the walker, the drivers (`single_files`,
  `reference_files` and the others) and the dispatch at the end of `main`.
- `Update`: `synctool/update.py`.

The client's operations are pure functions. Each takes the state and
returns the new state together with the events it caused, in order.
Examples of events are a check, a deletion, a post-script launch and a
shell command. The three loops of the update helper (the file-name search,
the receive loop and `download` itself) are methods. Their postconditions
tie them to pure reference definitions.

The inputs the model cannot compute are passed in as values:

- `shlex.split`;
- whether a command file exists and is executable;
- whether `os.chdir` succeeds;
- whether a file exists;
- the hex digests.

In `_overlay_callback` a non-directory entry reports a change only when it
also has a `.post` script of its own (src/synctool_client.py:131-135),
even when `check()` found a difference and repaired it. The model keeps
this.
The targeted overlay pass (`-1`) inherits this, and the walks of the model
run `_single_overlay_callback` as written. The second row under
"## Findings" records the consequence.

## Model

| member | source | states |
|---|---|---|
| World.Register | src/synctool_client.py:317-318 | `DIR_CHANGED[key] = pair` overwrites an earlier registration of the same key and leaves the key order alone; a new key goes to the end of the order, so keys stay in the order of first registration, each once |
| Paths.Dirname | src/synctool_client.py:110-112 | the result is the part of the path up to its last '/' with the trailing slashes removed, unless that part is all slashes, in which case it is kept whole; empty when the path has no '/' |
| Paths.DirnameOfSaved | src/synctool_client.py:311-318 | the parent of `dest + '.saved'` is the parent of `dest`, so the targeted erase pass registers the file's own directory |
| Runner.RunCommand | src/synctool_client.py:37-56 | the command reaches the shell exactly when its first word names an existing executable file; "not found" exactly when the file is missing, "not executable" exactly when it exists but is not executable |
| Runner.RunCommandInDir | src/synctool_client.py:59-91 | outside dry-run the command runs only after a successful chdir, in that directory; at most one shell command is started; the process ends where it started unless changing back fails; a failed chdir reports only the error; umask, targets and ledger are untouched |
| Runner.RunPost | src/synctool_client.py:94-114 | nothing happens under NO_POST or with an empty script; otherwise exactly one launch for the path and at most one shell command, which is the script itself, under ORIG_UMASK, in the directory itself or in the file's parent; that command is started exactly when the chdir succeeds (or in dry-run) and the script can be executed; the umask is 077 afterwards |
| Runner.DryRunStillRunsPost | src/synctool_client.py:67-75 | on a dry run a launchable post script still reaches the shell, from the current directory, with the administrator's umask, and no chdir happens |
| Callbacks.PostIf | src/synctool_client.py:127-128 | the entry's script is launched exactly when the condition holds and the entry has a script; every shell command it starts is that script; umask 077 is kept |
| Callbacks.PostIfLaunches | src/synctool_client.py:94-114 | the only command `_run_post` for an entry can start is that entry's own non-empty script, at most once and only when the condition holds; the shell starts in the script's directory (the entry itself for a directory, its parent otherwise, the current directory on a dry run) under the administrator's umask; under NO_POST nothing happens at all |
| Callbacks.OverlayCallback | src/synctool_client.py:117-135 | the entry is checked first; a directory reports the incoming flag OR its own difference; a file reports a change only when it differed and has its own script; the script is launched exactly when a change is reported and the entry has a script, and every shell command started is that script; the walk always goes on |
| Callbacks.OverlayLaunches | src/synctool_client.py:117-135 | the overlay callback launches and starts only the entry's own script, at most once, only when it reports a change, in the script's directory under the administrator's umask; under NO_POST it runs no command |
| Callbacks.OverlayChecksOnce | src/synctool_client.py:117-126 | `obj.check()` happens exactly once per entry: the check is the first event and no later event is a check |
| Callbacks.DeleteCallback | src/synctool_client.py:144-169 | directories are never deleted and pass on the flag; a destination directory is skipped; an existing non-directory destination is deleted and reported as a change, with or without a script; a shell command is started only for a reported change, and it is the entry's own script |
| Callbacks.DeleteLaunches | src/synctool_client.py:144-169 | the delete callback launches and starts only the entry's own script, at most once, only when it reports a change, in the script's directory under the administrator's umask; under NO_POST it runs no command |
| Callbacks.DeleteCallbackEffects | src/synctool_client.py:144-169 | the destination is deleted exactly when the source is not a directory and the destination exists as a non-directory; it is skipped exactly when the destination is a directory; the entry's script is launched exactly when a change is reported and the entry has one |
| Callbacks.EraseSavedCallback | src/synctool_client.py:178-198 | only `dest + '.saved'` is ever deleted, only when it exists and the source is not a directory; no script runs for a file; directories pass on the flag, and a shell command is started only for a set flag, and it is the directory's own script |
| Callbacks.EraseSavedLaunches | src/synctool_client.py:178-198 | the erase callback launches and starts only a directory's own script, at most once, only for a set flag, in that directory under the administrator's umask; a file never runs a command; under NO_POST nothing runs |
| Callbacks.SingleOverlayCallback | src/synctool_client.py:208-232 | an entry that is not a target changes nothing; a target is removed once, checked with a clear flag, and registers its parent's script when a change is reported; its events are those of the overlay callback, followed by "up to date" exactly when no change is reported; the walk stops exactly when the list becomes empty |
| Callbacks.SingleOverlayLaunches | src/synctool_client.py:208-232 | a matched target runs only its own script, at most once, only when it reports a change, in the script's directory under the administrator's umask; an unmatched entry runs nothing; under NO_POST nothing runs |
| Callbacks.SingleOverlayEffects | src/synctool_client.py:214-219 | a matched target is checked first and is reported "up to date" exactly when the overlay callback reported no change |
| Callbacks.SingleOverlayCallsRepairedFileUpToDate | src/synctool_client.py:214-219 | a file target that differed and has no script of its own is reported "up to date", and no parent script is registered |
| Callbacks.SingleOverlayCallbackCorrected | src/synctool_client.py:208-232 | as the targeted overlay callback, but a match reports a change exactly when its check found a difference, and then registers the parent directory; its events are those of the overlay callback, followed by "up to date" exactly when the check found nothing to do |
| Callbacks.SingleOverlayCorrectedEffects | src/synctool_client.py:214-219 | in the corrected callback a matched target is reported "up to date" exactly when its check found nothing to do |
| Callbacks.SingleDeleteCallback | src/synctool_client.py:235-255 | a target is removed once and handed to the delete callback with a clear flag; a deletion registers the parent's script; the walk stops exactly when the list becomes empty |
| Callbacks.SingleDeleteLaunches | src/synctool_client.py:235-255 | a matched target runs only its own script, at most once, only when it reports a deletion, in the script's directory under the administrator's umask; under NO_POST nothing runs |
| Callbacks.SingleEraseSavedCallback | src/synctool_client.py:290-323 | an entry matches when its path or its `.saved` name is a target, and both are taken off the list; a change is reported exactly when a file's backup exists; the walk stops exactly when the list becomes empty |
| Callbacks.SingleEraseSavedLaunches | src/synctool_client.py:290-323 | the targeted erase never launches or starts a command: its only events are deletions of the matched `.saved` file |
| Callbacks.SingleEraseSavedEffects | src/synctool_client.py:310-318 | a matched entry deletes exactly its backup when one exists, and only then registers the backup's parent directory |
| Callbacks.EraseTargets | src/synctool_client.py:296-308 | removing the path and then its `.saved` name takes one copy of each out of the target list |
| Callbacks.ReferenceCallback | src/synctool_client.py:363-373 | a matched target is removed and its source shown; nothing is reported changed; the walk stops exactly when the list becomes empty |
| Callbacks.DiffCallback | src/synctool_client.py:388-415 | a matched target is removed and the diff command runs with the destination and then the source appended; nothing is reported changed |
| Passes.CallbackFacts | src/synctool_client.py:117-415 | every callback keeps `DIR_CHANGED` well formed; the full-tree callbacks always go on and leave the target list alone; the targeted ones only shrink the list and stop exactly when it is empty; no callback leaves the umask other than 077 |
| Passes.CallbackLaunches | src/synctool_client.py:117-415 | whatever the mode, a callback launches only the non-empty script `post_dict` holds for the entry it is handed, and under NO_POST it runs no command |
| Passes.CallbackOfFacts | src/synctool_client.py:117-415 | seen by the walker, the callback of every mode keeps `DIR_CHANGED` well formed; a full-tree mode's callback works on the whole tree; a targeted mode's callback only shrinks the target list |
| Passes.Walk | src/synctool_client.py:229-232 | a walk keeps `DIR_CHANGED` well formed when its callback does; with a whole-tree callback it leaves the target list and ledger alone; with a shrinking callback the target list only shrinks; with a callback that keeps umask 077 the walk keeps it too |
| Passes.WalkLaunches | src/synctool_client.py:229-232 | every script a walk launches is the non-empty script of an entry the walk visited, and under NO_POST a walk runs no command |
| Passes.WalkStopsOnceDone | src/synctool_client.py:229-232 | once a walk whose callback shrinks the target list has emptied it, no later entry is handed to the callback |
| Passes.FullWalkVisitsAll | src/synctool_client.py:117-135 | a walk whose callback always goes on hands every entry to it; its events split at any point into the two halves of the walk |
| Passes.Flush | src/synctool_client.py:265-268 | every launch is for a registered directory, with that directory's own non-empty script, and every registered non-empty script is launched when post scripts are on; every shell command started is some registered script under the administrator's umask; under NO_POST nothing happens at all; umask 077 is kept |
| Passes.FlushShellsPerLaunch | src/synctool_client.py:265-268 | a flush starts no more shell commands than it launches scripts |
| Passes.FlushRunsEachOnce | src/synctool_client.py:265-268 | with each directory registered once, no script is launched twice in one flush |
| Passes.LedgerPass | src/synctool_client.py:262-268 | a pass starts from an empty `DIR_CHANGED`, keeps it well formed and runs every pending script; every launch it makes is either a pending directory's script or the own script of an entry the walk visited; under NO_POST it runs no command |
| Passes.LedgerPassForgetsEarlierLedger | src/synctool_client.py:262-263 | what a pass does does not depend on what an earlier pass registered |
| Passes.TwoPasses | src/synctool_client.py:258-287 | the delete tree is walked exactly when targets remain after the overlay pass; the target list only shrinks; the run ends with one "not in the overlay tree" report per leftover target, in list order |
| Passes.SingleFiles | src/synctool_client.py:258-287 | `single_files` walks the overlay tree with the targeted overlay callback and possibly the delete tree with the targeted delete callback |
| Passes.SingleEraseSavedAsWritten | src/synctool_client.py:326-333 | `single_erase_saved` as written raises before any walk and leaves the state unchanged |
| Passes.SingleEraseSavedPrologueCrashes | src/synctool_client.py:326-360 | the as-written driver makes no walk, while its two-pass body would walk the overlay tree |
| Passes.SingleEraseSavedFiles | src/synctool_client.py:336-360 | the two-pass body of `single_erase_saved` walks the overlay tree and possibly the delete tree with the targeted erase callback |
| Passes.EraseSavedFiles | src/synctool_client.py:200-204 | `erase_saved` walks the overlay tree and then the delete tree with the erase callback, leaving targets and ledger alone |
| Passes.OverlayThenDelete | src/synctool_client.py:783-785 | the default update walks the whole overlay tree and then the whole delete tree |
| Passes.LookupFiles | src/synctool_client.py:376-385 | `reference_files` and `diff_files` walk only the overlay tree and then report each target that was never found, in order |
| Passes.Dispatch | src/synctool_client.py:767-786 | every action starts with a walk of the overlay tree, and the client is under umask 077 when the action is done, whatever post scripts ran |
| Passes.DispatchLookupWalks | src/synctool_client.py:769-773 | `--diff` and `--ref` walk only the overlay tree, with their own callback |
| Passes.DispatchEraseSavedWalks | src/synctool_client.py:775-779 | `--erase-saved` walks both trees with the full-tree erase callback when no targets are named, else the targeted one |
| Passes.DispatchDefaultWalks | src/synctool_client.py:781-785 | without an action option the client walks both trees fully when no targets are named, else the targeted overlay pass and possibly the targeted delete pass |
| Options.FirstConflict | src/synctool_client.py:449-473 | the combination is accepted exactly when no rule is broken; otherwise the first broken rule, in the order the code tests them, is the one reported |
| Options.ClientCombinations | src/synctool_client.py:449-473 | with upload and suffix off the accepted combinations are `--diff` alone, `--ref` alone, and any mix of `--single`, `--erase-saved` and `--fix` |
| Options.TypoOf | src/synctool_client.py:437-446 | a word is refused exactly when it starts with `-d` or `-r` and holds an 'f'; a `-d` word suggests `--diff`, and a `-r` word suggests `--reference` with two or more 'e' and `--ref` with fewer |
| Options.BeCareful | src/synctool_client.py:427-446 | argv passes exactly when no word is refused; otherwise the first refused word decides the message |
| Options.GuardRefusesAttachedDiffArgument | src/synctool_client.py:437-439 | `-d` with an attached path holding an 'f' (such as `-d/etc/fstab`) is refused |
| Options.GuardAcceptsLongDiffOption | src/synctool_client.py:437-446 | `--diff=<path>` always passes the guard |
| Options.HelpOrVersion | src/synctool_client.py:544-555 | nothing happens when neither `--help` nor `--version` is given; otherwise whichever of the two comes first decides, help exiting with status 1 and version with status 0 |
| Options.ScanOpts | src/synctool_client.py:589-684 | the options loop stops at the first missing or relative file argument; otherwise the targets are the file arguments without repeats in first-occurrence order, the action is that of the last `-d`, `-r` or `-e`, and DRY_RUN and NO_POST follow `--fix` and `--no-post` |
| Options.ScanTargetsAreFullPaths | src/synctool_client.py:642-647 | every accepted target starts with '/' |
| Options.AllFullPathsIffNoError | src/synctool_client.py:638-644 | the loop finds no bad file argument exactly when all of them are full paths |
| Options.GetOptions | src/synctool_client.py:512-696 | options are accepted exactly when the guard passes, no excess arguments are left, neither help nor version is asked for, all file arguments are full paths and the combination is allowed; `--version` is the only exit with status 0 and every other exit has status 1; the reasons win in the order the code meets them: typo, excess arguments, help or version, the first bad file argument, the first broken combination rule |
| Options.EraseSavedWithRefIsRefused | src/synctool_client.py:665-694 | `--erase-saved` with `--ref` is refused with status 1 by the combination check |
| Text.Words | src/synctool/update.py:77 | `split()` gives non-empty fields without whitespace |
| Text.WordsKeepText | src/synctool/update.py:77 | the fields hold every non-whitespace character of the text, in order |
| Text.StripKeepsText | src/synctool/update.py:73 | `strip()` removes only whitespace, and the result neither starts nor ends with it |
| Text.WordsOfStrip | src/synctool/update.py:73-77 | splitting after stripping gives the same fields as splitting alone |
| Text.WordsOfLine | src/synctool/update.py:75-77 | fields written on one line, separated by spaces, split back into the same fields |
| Text.DecRoundTrip | src/synctool/update.py:117 | reading a number rendered with `%d` gives back the number |
| Update.ParseLatest | src/synctool/update.py:64-82 | parsing fails exactly when the first 1024 characters are fewer than 10 or hold fewer than 2 fields; otherwise it returns their whitespace-separated fields |
| Update.ParseLatestOfLine | src/synctool/update.py:69-82 | a version file of two or more fields on one line, 10 to 1024 characters long, parses into exactly those fields |
| Update.ParseLatestReadsOnce | src/synctool/update.py:65 | nothing after the first 1024 characters affects the result |
| Update.LatestVersion | src/synctool/update.py:26-33 | the latest version is the first field when the file parses, else none |
| Update.Check | src/synctool/update.py:85-103 | a newer version is reported exactly when the file parses and its first field differs from the installed version |
| Update.CheckOfLine | src/synctool/update.py:91-103 | against a well-formed version file the check answers yes exactly when the version in the file differs from the installed one |
| Update.LocalNamesDistinct | src/synctool/update.py:109-117 | the plain name differs from every numbered name, and different numbers give different names |
| Update.MakeLocalFilename | src/synctool/update.py:106-122 | the name chosen never names an existing file; it is the plain name when that is free, else the numbered name with the smallest free number from 2 |
| Update.FloorDiv | src/synctool/update.py:128 | integer division rounds towards minus infinity, as Python 2 `/` on integers does |
| Update.Percent | src/synctool/update.py:125-130 | the percentage is undefined for a total of 0 and never above 100; it is 100 exactly when the count has reached the total (for a negative total, when it is at or below it), and otherwise the floor of 100 * count / total; a non-negative count over a positive total gives at least 0 |
| Update.PercentMonotone | src/synctool/update.py:125-130 | for a positive total the percentage shown never goes down as the count grows |
| Update.PercentExact | src/synctool/update.py:125-130 | for a positive total, any value in 0..99 that meets the floor bounds of 100 * count / total is the percentage |
| Update.DownloadVerdict | src/synctool/update.py:136-234 | each outcome holds exactly under its condition: no version file; the version file parsed but no Content-Length header (an uncaught IndexError); a Content-Length that is not a number; a Content-Length of 0 (division by zero in the progress line); fewer bytes than announced; enough bytes but a checksum mismatch; or success |
| Update.ChecksumMatches | src/synctool/update.py:147-150 | the SHA-512 digest is compared with the third field when there is one, else the MD5 digest with the second |
| Update.ShortDownloadIgnoresDigests | src/synctool/update.py:217-220 | a download with fewer bytes than Content-Length fails as incomplete, whatever the digests are |
| Update.Sha512OverridesMd5 | src/synctool/update.py:147-150 | with a third field only the SHA-512 digest decides; the MD5 digest has no influence |
| Update.Receive | src/synctool/update.py:197-213 | the loop gathers the chunks before the first empty read, counts exactly their bytes, and shows the percentage before the first chunk and after each one |
| Update.Download | src/synctool/update.py:136-234 | the procedure reaches the verdict of the reference definition; the local file it picks is new; a successful download with a positive Content-Length ends on 100% |

## Left out

- The tree walker `synctool.overlay.visit` is not part of this model. A walk is a stub: a list of visits, each carrying the entry, the post dict and the incoming "directory changed" flag. How the walker folds the flag is not modelled.
- The entry methods are inputs. The result of `obj.check()` (which repairs the entry in fix mode) is a field of the entry, the stats are fields, and `harddelete` and `print_src` become events.
- Output is not modelled: `stdout`, `stderr`, `terse`, `unix_out`, `verbose`, colours and the banners `main` prints. Only the facts the messages report appear, as events.
- The `getopt` library is not modelled. Its parsed option list and left-over arguments are inputs, and its own errors (lines 520-538) are left out.
- Configuration is left out: reading the config, `check_cmd_config`, node name resolution and its exits (lines 704-721), and setting the environment.
- The "unknown command line option" branch of `get_options` (lines 686-691) is left out. Every option getopt can return is handled by an earlier branch.
- `--terse` and `--fullpath` (lines 561-572) only change presentation and are left out.
- The upload and suffix flags are never set by `get_options`, so they are always false for the client. `option_combinations` is still modelled over all seven flags.
- Runner.RunCommand: when `shlex.split` gives no words, Python raises IndexError at `arr[0]` (line 42), which ends the client. The model records a `NoCommandWord` event and carries on instead. An unbalanced quote makes `shlex.split` raise ValueError, in `run_command` and in `_diff_callback` alike; the `split` oracle cannot express that and gives no words instead. The script text is never empty there; it is at most whitespace.
- Python 2 gives no fixed iteration order for `DIR_CHANGED`. The model runs the registered scripts in the order their directories were first registered.
- Real processes, `os.chdir` and `os.umask` are not modelled. The working directory and umask are fields of the state, and `shlex.split`, the command stat and chdir success are oracles.
- `subprocess.call` of the diff command, and its OSError, are left out. The diff run is an event that carries its argument vector.
- The top-level handlers for IOError (broken pipe) and KeyboardInterrupt are left out.
- In `synctool/update.py` the network, HTTP errors, the file being written and the digest algorithms are left out. The response bodies, the Content-Length header (missing, not a number, or a number) and the hex digests are inputs.
- Update.MakeLocalFilename: it requires that some candidate name is free. When every name is taken the Python loop never ends, and that case is not modelled.
- Update.Download: the messages and the MD5 digest computed over nothing when SHA-512 is used are left out. A Content-Length of 0 raises ZeroDivisionError in `print_progress` before any data is read; this appears as the `ProgressCrash` verdict. A missing Content-Length header raises IndexError, which nothing in `download` catches; this appears as the `HeaderCrash` verdict. The failure to create the local file (lines 187-192) is left out with the rest of the file I/O.
- Callbacks.PostIf: its own contract does not bound the number of shell starts or fix their directory and umask. `Callbacks.PostIfLaunches` states those facts.
- Callbacks.OverlayCallback: its own contract does not bound the shell starts or fix their directory, their umask and the NO_POST case. `Callbacks.OverlayLaunches` states those facts.
- Callbacks.DeleteCallback: its own contract does not bound the shell starts or fix their directory, their umask and the NO_POST case. `Callbacks.DeleteLaunches` states those facts.
- Callbacks.EraseSavedCallback: its own contract does not bound the shell starts or fix their directory, their umask and the NO_POST case. `Callbacks.EraseSavedLaunches` states those facts.
- Passes.Flush: its own contract does not compare the number of shell starts with the number of launches. `Passes.FlushShellsPerLaunch` states that bound.
- Passes.Dispatch: its own contract only says that every action starts with an overlay walk and ends under umask 077. The walks per action are stated by the three `Dispatch…Walks` lemmas. For `-e` with targets the program as written raises before any walk (src/synctool_client.py:326-333). Dispatch runs the two-pass body instead, and the crash is modelled by `Passes.SingleEraseSavedAsWritten` (see "## Findings").

## Findings

| source | as written | input that shows it | evidently intended | confidence | as-written member | corrected member |
|---|---|---|---|---|---|---|
| src/synctool_client.py:326-333 | `single_erase_saved` reads the local `filename` before anything assigns it (the `for filename in SINGLE_FILES` loop at the end makes it local), so it raises UnboundLocalError before any walk | `synctool-client -e -1 /etc/motd`: erase-saved with a target | run the two passes with the targeted erase callback, which already accepts `.saved` names itself | not executed | Passes.SingleEraseSavedPrologueCrashes | Passes.SingleEraseSavedFiles |
| src/synctool_client.py:214-219 | `_single_overlay_callback` takes `updated` from `_overlay_callback`, which reports a changed file only when the file has its own `.post` script; a repaired file without one is reported "is up to date" and its directory's script is not registered | `-1 /etc/motd` where `/etc/motd` differs from the overlay, there is no `motd.post`, and `/etc` has a `.post` script | report the change and register the parent's script whenever the check found a difference | not executed | Callbacks.SingleOverlayCallsRepairedFileUpToDate | Callbacks.SingleOverlayCallbackCorrected |

`Passes.Dispatch` runs `Passes.SingleEraseSavedFiles`, because the
function as written cannot get past its first lines. The targeted overlay
pass of `single_files` runs `Callbacks.SingleOverlayCallback` as written.
Its quirk is the program's actual behaviour. The corrected callback
`Callbacks.SingleOverlayCallbackCorrected` is stated and proved alongside
it.
