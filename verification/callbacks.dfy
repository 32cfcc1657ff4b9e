/** The traversal callbacks of the synctool client. The walker calls one of
    them for every resolved entry, with the `post_dict` and the incoming
    "directory changed" flag, and gets back `(go_on, changed)`. */
module Callbacks {
  import opened Seqs
  import opened Paths
  import opened World
  import opened Runner

  /** The `(go_on, changed)` pair a callback returns to the walker. */
  datatype Reply = Reply(goOn: bool, changed: bool)

  datatype Outcome = Outcome(reply: Reply, st: State, out: seq<Event>)

  /** A shell start of the entry's own post script as `_run_post` makes
      it: post scripts are on, and the script runs under the administrator's
      umask in the directory itself or in the file's parent. */
  predicate OwnScriptShell(ev: Event, e: Entry, post: PostDict, sys: Sys, st: State) {
    && !sys.cfg.noPost
    && e.destPath in post
    && ev == Shell(post[e.destPath], WorkDir(sys, st, PostDir(e.destPath, e.dest.Dir?)), sys.cfg.origUmask)
  }

  /** What a callback may run: only its entry's own non-empty post script,
      only when `changed` holds, starting it at most once, and no command
      at all under NO_POST. */
  predicate OwnScriptOnly(out: seq<Event>, changed: bool, e: Entry, post: PostDict, sys: Sys, st: State) {
    && (forall ev :: ev in out && ev.PostRun? ==>
          changed && ev.path == e.destPath && ev.path in post && ev.script == post[ev.path] && ev.script != "")
    && (forall ev :: ev in out && ev.Shell? ==> changed && OwnScriptShell(ev, e, post, sys, st))
    && |Filter(out, IsShell)| <= 1
    && (sys.cfg.noPost ==> forall ev :: ev in out ==> !IsCommandEvent(ev))
  }

  /** The post script for `e`'s own destination path, run as `_run_post`
      does when `cond` holds. */
  function PostIf(cond: bool, e: Entry, post: PostDict, sys: Sys, st: State): (r: Effect)
    ensures r.st.targets == st.targets && r.st.ledger == st.ledger
    ensures forall ev :: ev in r.out ==> IsCommandEvent(ev)
    ensures Filter(r.out, IsPostRun) ==
      if cond && e.destPath in post then PostsOf(sys, e.destPath, post[e.destPath]) else []
    ensures forall ev :: ev in r.out && ev.Shell? ==>
      cond && e.destPath in post && ev.cmd == post[e.destPath]
    ensures st.umask == StrictUmask ==> r.st.umask == StrictUmask
  {
    if cond && e.destPath in post then RunPost(e.destPath, e.dest.Dir?, post[e.destPath], sys, st)
    else Effect(st, [])
  }

  /** `_run_post` through `PostIf`: the only shell start is the entry's own
      script, at most once, only when `cond` holds and post scripts are on,
      under the administrator's umask in the script's directory. */
  lemma PostIfLaunches(cond: bool, e: Entry, post: PostDict, sys: Sys, st: State)
    ensures var r := PostIf(cond, e, post, sys, st);
      OwnScriptOnly(r.out, cond, e, post, sys, st) && (sys.cfg.noPost ==> r.out == [])
  {
    if cond && e.destPath in post {
      var r := RunPost(e.destPath, e.dest.Dir?, post[e.destPath], sys, st);
      LaunchesOf(r.out, Filter(r.out, IsPostRun));
      assert OwnScriptOnly(r.out, cond, e, post, sys, st);
    } else {
      OwnScriptOnlyInert([], cond, e, post, sys, st);
    }
  }

  /** Events whose launches are exactly `launches` launch nothing else. */
  lemma LaunchesOf(out: seq<Event>, launches: seq<Event>)
    requires Filter(out, IsPostRun) == launches
    ensures forall p, sc :: PostRun(p, sc) in out ==> PostRun(p, sc) in launches
  {
    forall p, sc | PostRun(p, sc) in out ensures PostRun(p, sc) in launches {
      assert IsPostRun(PostRun(p, sc));
    }
  }

  /** Putting an event that is not a command event in front keeps what
      `OwnScriptOnly` says about the launches. */
  lemma OwnScriptOnlyAfter(ev: Event, out: seq<Event>, changed: bool, e: Entry, post: PostDict, sys: Sys, st: State)
    requires !IsCommandEvent(ev) && OwnScriptOnly(out, changed, e, post, sys, st)
    ensures OwnScriptOnly([ev] + out, changed, e, post, sys, st)
  {
    FilterConcat([ev], out, IsShell);
    FilterNone([ev], IsShell);
  }

  /** Events that are not command events run nothing. */
  lemma OwnScriptOnlyInert(out: seq<Event>, changed: bool, e: Entry, post: PostDict, sys: Sys, st: State)
    requires forall ev :: ev in out ==> !IsCommandEvent(ev)
    ensures OwnScriptOnly(out, changed, e, post, sys, st)
  {
    FilterNone(out, IsShell);
  }

  /** Only the working directory of the state matters to `OwnScriptOnly`. */
  lemma OwnScriptOnlyCwd(out: seq<Event>, changed: bool, e: Entry, post: PostDict, sys: Sys, st: State, st': State)
    requires st.cwd == st'.cwd && OwnScriptOnly(out, changed, e, post, sys, st)
    ensures OwnScriptOnly(out, changed, e, post, sys, st')
  {
    assert WorkDir(sys, st, PostDir(e.destPath, e.dest.Dir?)) == WorkDir(sys, st', PostDir(e.destPath, e.dest.Dir?));
  }

  /** So does putting such an event at the end. */
  lemma OwnScriptOnlyThen(out: seq<Event>, ev: Event, changed: bool, e: Entry, post: PostDict, sys: Sys, st: State)
    requires !IsCommandEvent(ev) && OwnScriptOnly(out, changed, e, post, sys, st)
    ensures OwnScriptOnly(out + [ev], changed, e, post, sys, st)
  {
    FilterConcat(out, [ev], IsShell);
    FilterNone([ev], IsShell);
  }

  /** An event that is not a post-script launch, put in front, leaves the
      launches as they were. */
  lemma FilterAfter(ev: Event, evs: seq<Event>)
    requires !ev.PostRun?
    ensures Filter([ev] + evs, IsPostRun) == Filter(evs, IsPostRun)
  {
    FilterConcat([ev], evs, IsPostRun);
  }

  // ---------------------------------------------------------------------
  // Full-tree callbacks

  /** `_overlay_callback`: checks the entry once (which repairs it in fix
      mode). A directory passes on the incoming flag OR its own difference
      and runs its post script when that is true; any other entry reports
      a change, and runs its post script, only when it differed AND has a
      post script of its own. */
  function OverlayCallback(e: Entry, post: PostDict, flag: bool, sys: Sys, st: State): (r: Outcome)
    ensures r.reply.goOn
    ensures r.reply.changed ==
      if e.srcIsDir then flag || !e.upToDate else !e.upToDate && e.destPath in post
    ensures r.st.targets == st.targets && r.st.ledger == st.ledger
    ensures |r.out| > 0 && r.out[0] == Checked(e.destPath)
    ensures forall ev :: ev in r.out ==> ev == Checked(e.destPath) || IsCommandEvent(ev)
    ensures Filter(r.out, IsPostRun) ==
      if r.reply.changed && e.destPath in post then PostsOf(sys, e.destPath, post[e.destPath]) else []
    ensures forall ev :: ev in r.out && ev.Shell? ==>
      r.reply.changed && e.destPath in post && ev.cmd == post[e.destPath]
    ensures st.umask == StrictUmask ==> r.st.umask == StrictUmask
  {
    var differs := !e.upToDate;
    var changed := if e.srcIsDir then flag || differs else differs && e.destPath in post;
    var p := PostIf(changed, e, post, sys, st);
    FilterAfter(Checked(e.destPath), p.out);
    Outcome(Reply(true, changed), p.st, [Checked(e.destPath)] + p.out)
  }

  /** The events of the overlay pass: the check, then the post-script
      run of the entry if any. */
  lemma OverlayOutput(e: Entry, post: PostDict, flag: bool, sys: Sys, st: State)
    ensures var r := OverlayCallback(e, post, flag, sys, st);
      r.out == [Checked(e.destPath)] + PostIf(r.reply.changed, e, post, sys, st).out
  {
  }

  /** The overlay pass starts only the entry's own post script, at most
      once, and only when it reports a change; under NO_POST it runs no
      command at all. */
  lemma OverlayLaunches(e: Entry, post: PostDict, flag: bool, sys: Sys, st: State)
    ensures var r := OverlayCallback(e, post, flag, sys, st);
      OwnScriptOnly(r.out, r.reply.changed, e, post, sys, st)
  {
    var r := OverlayCallback(e, post, flag, sys, st);
    PostIfLaunches(r.reply.changed, e, post, sys, st);
    OverlayOutput(e, post, flag, sys, st);
    OwnScriptOnlyAfter(Checked(e.destPath), PostIf(r.reply.changed, e, post, sys, st).out,
                       r.reply.changed, e, post, sys, st);
  }

  /** The overlay pass checks each entry exactly once: the check is its
      first event and no other event is a check. */
  lemma OverlayChecksOnce(e: Entry, post: PostDict, flag: bool, sys: Sys, st: State)
    ensures var r := OverlayCallback(e, post, flag, sys, st);
      && |r.out| > 0 && r.out[0] == Checked(e.destPath)
      && forall i :: 0 < i < |r.out| ==> !r.out[i].Checked?
  {
    var r := OverlayCallback(e, post, flag, sys, st);
    var p := PostIf(r.reply.changed, e, post, sys, st);
    OverlayOutput(e, post, flag, sys, st);
    assert forall ev :: ev in p.out ==> !ev.Checked?;
    forall i | 0 < i < |r.out| ensures !r.out[i].Checked? {
      assert r.out[i] in p.out by { assert r.out[i] == p.out[i - 1]; }
    }
  }

  /** `_delete_callback`: directories are never deleted (they only pass on
      the flag and run their post script when it is set); a destination that
      turned out to be a directory is skipped with a message; otherwise an
      existing destination is deleted and reported as a change whether or
      not it has a post script. */
  function DeleteCallback(e: Entry, post: PostDict, flag: bool, sys: Sys, st: State): (r: Outcome)
    ensures r.reply.goOn
    ensures r.reply.changed == if e.srcIsDir then flag else e.dest.NonDir?
    ensures r.st.targets == st.targets && r.st.ledger == st.ledger
    ensures forall ev :: ev in r.out ==>
      || IsCommandEvent(ev)
      || (ev == Deleted(e.destPath) && !e.srcIsDir && e.dest.NonDir?)
      || (ev == DirectorySkipped(e.destPath) && !e.srcIsDir && e.dest.Dir?)
    ensures forall ev :: ev in r.out && ev.Shell? ==>
      r.reply.changed && e.destPath in post && ev.cmd == post[e.destPath]
    ensures st.umask == StrictUmask ==> r.st.umask == StrictUmask
  {
    if e.srcIsDir then
      var p := PostIf(flag, e, post, sys, st);
      Outcome(Reply(true, flag), p.st, p.out)
    else if e.dest.Dir? then
      Outcome(Reply(true, false), st, [DirectorySkipped(e.destPath)])
    else if e.dest.NonDir? then
      var p := PostIf(true, e, post, sys, st);
      Outcome(Reply(true, true), p.st, [Deleted(e.destPath)] + p.out)
    else
      Outcome(Reply(true, false), st, [])
  }

  /** What the delete pass does to one entry: it deletes exactly the
      destinations that exist and are not directories, says so for the
      ones that are directories, and runs the entry's post script exactly
      when it reports a change. */
  lemma DeleteCallbackEffects(e: Entry, post: PostDict, flag: bool, sys: Sys, st: State)
    ensures var r := DeleteCallback(e, post, flag, sys, st);
      && (Deleted(e.destPath) in r.out <==> !e.srcIsDir && e.dest.NonDir?)
      && (DirectorySkipped(e.destPath) in r.out <==> !e.srcIsDir && e.dest.Dir?)
      && Filter(r.out, IsPostRun) ==
           if r.reply.changed && e.destPath in post then PostsOf(sys, e.destPath, post[e.destPath]) else []
  {
    var r := DeleteCallback(e, post, flag, sys, st);
    if e.srcIsDir {
      var p := PostIf(flag, e, post, sys, st);
      assert r.out == p.out;
      assert Deleted(e.destPath) !in p.out && DirectorySkipped(e.destPath) !in p.out;
    } else if e.dest.Dir? {
      assert r.out == [DirectorySkipped(e.destPath)];
    } else if e.dest.NonDir? {
      var p := PostIf(true, e, post, sys, st);
      assert r.out == [Deleted(e.destPath)] + p.out;
      FilterAfter(Deleted(e.destPath), p.out);
      assert DirectorySkipped(e.destPath) !in p.out;
    } else {
      assert r.out == [];
    }
  }

  /** The delete pass starts only the entry's own post script, at most
      once, and only when it reports a change; under NO_POST it runs no
      command at all. */
  lemma DeleteLaunches(e: Entry, post: PostDict, flag: bool, sys: Sys, st: State)
    ensures var r := DeleteCallback(e, post, flag, sys, st);
      OwnScriptOnly(r.out, r.reply.changed, e, post, sys, st)
  {
    var r := DeleteCallback(e, post, flag, sys, st);
    if e.srcIsDir {
      PostIfLaunches(flag, e, post, sys, st);
      assert r.out == PostIf(flag, e, post, sys, st).out;
    } else if e.dest.Dir? {
      OwnScriptOnlyAfter(DirectorySkipped(e.destPath), [], false, e, post, sys, st);
      assert r.out == [DirectorySkipped(e.destPath)] + [];
    } else if e.dest.NonDir? {
      var p := PostIf(true, e, post, sys, st);
      PostIfLaunches(true, e, post, sys, st);
      assert r.out == [Deleted(e.destPath)] + p.out;
      OwnScriptOnlyAfter(Deleted(e.destPath), p.out, true, e, post, sys, st);
    } else {
      assert r.out == [];
    }
  }

  /** `_erase_saved_callback`: only ever deletes `dest + '.saved'`, only when
      it exists, never for a directory source, and runs no post script for
      it; directories pass on the flag as in the delete pass. */
  function EraseSavedCallback(e: Entry, post: PostDict, flag: bool, sys: Sys, st: State): (r: Outcome)
    ensures r.reply.goOn
    ensures r.reply.changed == if e.srcIsDir then flag else e.saved != Absent
    ensures r.st.targets == st.targets && r.st.ledger == st.ledger
    ensures forall p :: Deleted(p) in r.out ==> p == SavedName(e.destPath) && !e.srcIsDir && e.saved != Absent
    ensures !e.srcIsDir ==> r.out == if e.saved != Absent then [Deleted(SavedName(e.destPath))] else []
    ensures Filter(r.out, IsPostRun) ==
      if e.srcIsDir && flag && e.destPath in post then PostsOf(sys, e.destPath, post[e.destPath]) else []
    ensures forall ev :: ev in r.out ==> IsCommandEvent(ev) || ev.Deleted?
    ensures forall ev :: ev in r.out && ev.Shell? ==>
      r.reply.changed && e.destPath in post && ev.cmd == post[e.destPath]
    ensures st.umask == StrictUmask ==> r.st.umask == StrictUmask
  {
    if e.srcIsDir then
      var p := PostIf(flag, e, post, sys, st);
      Outcome(Reply(true, flag), p.st, p.out)
    else if e.saved != Absent then
      Outcome(Reply(true, true), st, [Deleted(SavedName(e.destPath))])
    else
      Outcome(Reply(true, false), st, [])
  }

  /** The erase pass starts only a directory's own post script, at most
      once, and only when the incoming flag is set; under NO_POST it runs
      no command at all. */
  lemma EraseSavedLaunches(e: Entry, post: PostDict, flag: bool, sys: Sys, st: State)
    ensures var r := EraseSavedCallback(e, post, flag, sys, st);
      OwnScriptOnly(r.out, r.reply.changed && e.srcIsDir, e, post, sys, st)
  {
    var r := EraseSavedCallback(e, post, flag, sys, st);
    if e.srcIsDir {
      PostIfLaunches(flag, e, post, sys, st);
      assert r.out == PostIf(flag, e, post, sys, st).out;
    } else if e.saved != Absent {
      OwnScriptOnlyAfter(Deleted(SavedName(e.destPath)), [], false, e, post, sys, st);
      assert r.out == [Deleted(SavedName(e.destPath))] + [];
    } else {
      assert r.out == [];
    }
  }

  // ---------------------------------------------------------------------
  // Targeted callbacks

  /** Register the .post script of directory `dir` in `DIR_CHANGED`, when
      `post_dict` has one. */
  function RegisterDir(dir: Path, isDir: bool, post: PostDict, st: State): State {
    if dir in post then st.(ledger := Register(st.ledger, dir, Pending(isDir, post[dir]))) else st
  }

  /** The ledger after a targeted match that reported `changed`: the parent
      directory of `path` is registered when it has a post script. */
  function LedgerAfter(changed: bool, path: Path, e: Entry, post: PostDict, l: Ledger): Ledger {
    var dir := Dirname(path);
    if changed && dir in post then Register(l, dir, Pending(e.parent.Dir?, post[dir])) else l
  }

  lemma LedgerAfterValid(changed: bool, path: Path, e: Entry, post: PostDict, l: Ledger)
    requires l.Valid()
    ensures LedgerAfter(changed, path, e, post, l).Valid()
  {
  }

  /** `_single_overlay_callback`: acts only on an entry whose destination is
      still a target, removing it from the list first. A matched entry is
      checked as in the overlay pass with a clear flag; if that reports no
      change it is "up to date", otherwise the parent directory is put in
      `DIR_CHANGED`. The walk is stopped once the list is empty. An
      unmatched entry changes nothing and echoes the incoming flag. */
  function SingleOverlayCallback(e: Entry, post: PostDict, flag: bool, sys: Sys, st: State): (r: Outcome)
    ensures e.destPath !in st.targets ==> r == Outcome(Reply(true, flag), st, [])
    ensures e.destPath in st.targets ==>
      && r.st.targets == RemoveFirst(st.targets, e.destPath)
      && (r.reply.goOn <==> r.st.targets != [])
      && r.reply.changed == (if e.srcIsDir then !e.upToDate else !e.upToDate && e.destPath in post)
      && r.st.ledger == LedgerAfter(r.reply.changed, e.destPath, e, post, st.ledger)
      && var o := OverlayCallback(e, post, false, sys, st.(targets := RemoveFirst(st.targets, e.destPath)));
         && (r.reply.changed ==> r.out == o.out)
         && (!r.reply.changed ==> r.out == o.out + [UpToDate(e.destPath)])
    ensures st.umask == StrictUmask ==> r.st.umask == StrictUmask
  {
    if e.destPath !in st.targets then Outcome(Reply(true, flag), st, [])
    else
      var st1 := st.(targets := RemoveFirst(st.targets, e.destPath));
      var o := OverlayCallback(e, post, false, sys, st1);
      var st2 := if o.reply.changed then RegisterDir(Dirname(e.destPath), e.parent.Dir?, post, o.st) else o.st;
      var out := if o.reply.changed then o.out else o.out + [UpToDate(e.destPath)];
      Outcome(Reply(st2.targets != [], o.reply.changed), st2, out)
  }

  /** A matched entry of the targeted overlay pass is checked first and is
      reported up to date exactly when it did not change; only checks,
      up-to-date reports and post-script events ever happen. */
  lemma SingleOverlayEffects(e: Entry, post: PostDict, flag: bool, sys: Sys, st: State)
    ensures var r := SingleOverlayCallback(e, post, flag, sys, st);
      && (e.destPath in st.targets ==>
            && |r.out| > 0 && r.out[0] == Checked(e.destPath)
            && (UpToDate(e.destPath) in r.out <==> !r.reply.changed))
      && (forall ev :: ev in r.out ==> ev.Checked? || ev.UpToDate? || IsCommandEvent(ev))
  {
    if e.destPath in st.targets {
      var st1 := st.(targets := RemoveFirst(st.targets, e.destPath));
      var o := OverlayCallback(e, post, false, sys, st1);
      assert !IsCommandEvent(UpToDate(e.destPath));
      if !o.reply.changed {
        assert (o.out + [UpToDate(e.destPath)])[0] == o.out[0];
      }
    }
  }

  /** The targeted overlay pass runs only the matched entry's own script,
      as the overlay pass does. */
  lemma SingleOverlayLaunches(e: Entry, post: PostDict, flag: bool, sys: Sys, st: State)
    ensures var r := SingleOverlayCallback(e, post, flag, sys, st);
      OwnScriptOnly(r.out, r.reply.changed, e, post, sys, st)
  {
    var r := SingleOverlayCallback(e, post, flag, sys, st);
    if e.destPath in st.targets {
      var st1 := st.(targets := RemoveFirst(st.targets, e.destPath));
      var o := OverlayCallback(e, post, false, sys, st1);
      OverlayLaunches(e, post, false, sys, st1);
      OwnScriptOnlyCwd(o.out, o.reply.changed, e, post, sys, st1, st);
      if r.reply.changed {
        assert r.out == o.out;
      } else {
        OwnScriptOnlyThen(o.out, UpToDate(e.destPath), false, e, post, sys, st);
        assert r.out == o.out + [UpToDate(e.destPath)];
      }
    } else {
      OwnScriptOnlyInert(r.out, r.reply.changed, e, post, sys, st);
    }
  }

  /** The targeted overlay pass as written reports an entry that differed,
      and was repaired, as "up to date" when it is not a directory and has
      no post script of its own, because `_overlay_callback` reports a
      change for such an entry only when it has one. Its parent directory
      is then not registered either. */
  lemma SingleOverlayCallsRepairedFileUpToDate(e: Entry, post: PostDict, flag: bool, sys: Sys, st: State)
    requires e.destPath in st.targets && !e.srcIsDir && !e.upToDate && e.destPath !in post
    ensures UpToDate(e.destPath) in SingleOverlayCallback(e, post, flag, sys, st).out
    ensures SingleOverlayCallback(e, post, flag, sys, st).st.ledger == st.ledger
  {
    SingleOverlayEffects(e, post, flag, sys, st);
  }

  /** `_single_overlay_callback` with the matched entry's change taken from
      the check itself (`not obj.check()`), as the message and the parent
      registration evidently mean; the post script of the entry itself is
      run exactly as in the overlay pass. */
  function SingleOverlayCallbackCorrected(e: Entry, post: PostDict, flag: bool, sys: Sys, st: State): (r: Outcome)
    ensures e.destPath !in st.targets ==> r == Outcome(Reply(true, flag), st, [])
    ensures e.destPath in st.targets ==>
      && r.st.targets == RemoveFirst(st.targets, e.destPath)
      && (r.reply.goOn <==> r.st.targets != [])
      && r.reply.changed == !e.upToDate
      && r.st.ledger == LedgerAfter(!e.upToDate, e.destPath, e, post, st.ledger)
      && var o := OverlayCallback(e, post, false, sys, st.(targets := RemoveFirst(st.targets, e.destPath)));
         && (r.reply.changed ==> r.out == o.out)
         && (!r.reply.changed ==> r.out == o.out + [UpToDate(e.destPath)])
    ensures st.umask == StrictUmask ==> r.st.umask == StrictUmask
  {
    if e.destPath !in st.targets then Outcome(Reply(true, flag), st, [])
    else
      var st1 := st.(targets := RemoveFirst(st.targets, e.destPath));
      var o := OverlayCallback(e, post, false, sys, st1);
      var changed := !e.upToDate;
      var st2 := if changed then RegisterDir(Dirname(e.destPath), e.parent.Dir?, post, o.st) else o.st;
      var out := if changed then o.out else o.out + [UpToDate(e.destPath)];
      Outcome(Reply(st2.targets != [], changed), st2, out)
  }

  /** In the corrected targeted overlay pass a matched entry is reported up
      to date exactly when its check found nothing to do. */
  lemma SingleOverlayCorrectedEffects(e: Entry, post: PostDict, flag: bool, sys: Sys, st: State)
    ensures var r := SingleOverlayCallbackCorrected(e, post, flag, sys, st);
      && (e.destPath in st.targets ==>
            && |r.out| > 0 && r.out[0] == Checked(e.destPath)
            && (UpToDate(e.destPath) in r.out <==> e.upToDate))
      && (forall ev :: ev in r.out ==> ev.Checked? || ev.UpToDate? || IsCommandEvent(ev))
  {
    if e.destPath in st.targets {
      var st1 := st.(targets := RemoveFirst(st.targets, e.destPath));
      var o := OverlayCallback(e, post, false, sys, st1);
      assert !IsCommandEvent(UpToDate(e.destPath));
      if e.upToDate {
        assert (o.out + [UpToDate(e.destPath)])[0] == o.out[0];
      }
    }
  }

  /** `_single_delete_callback`: the targeted delete pass; a matched entry
      goes through `_delete_callback` with a clear flag, and a reported
      change registers the parent directory. */
  function SingleDeleteCallback(e: Entry, post: PostDict, flag: bool, sys: Sys, st: State): (r: Outcome)
    ensures e.destPath !in st.targets ==> r == Outcome(Reply(true, flag), st, [])
    ensures e.destPath in st.targets ==>
      && r.st.targets == RemoveFirst(st.targets, e.destPath)
      && (r.reply.goOn <==> r.st.targets != [])
      && r.reply.changed == (!e.srcIsDir && e.dest.NonDir?)
      && r.st.ledger == LedgerAfter(r.reply.changed, e.destPath, e, post, st.ledger)
      && r.out == DeleteCallback(e, post, false, sys, st.(targets := r.st.targets)).out
    ensures st.umask == StrictUmask ==> r.st.umask == StrictUmask
  {
    if e.destPath !in st.targets then Outcome(Reply(true, flag), st, [])
    else
      var st1 := st.(targets := RemoveFirst(st.targets, e.destPath));
      var o := DeleteCallback(e, post, false, sys, st1);
      var st2 := if o.reply.changed then RegisterDir(Dirname(e.destPath), e.parent.Dir?, post, o.st) else o.st;
      Outcome(Reply(st2.targets != [], o.reply.changed), st2, o.out)
  }

  /** The targeted delete pass runs only the matched entry's own script,
      as the delete pass does. */
  lemma SingleDeleteLaunches(e: Entry, post: PostDict, flag: bool, sys: Sys, st: State)
    ensures var r := SingleDeleteCallback(e, post, flag, sys, st);
      OwnScriptOnly(r.out, r.reply.changed, e, post, sys, st)
  {
    var r := SingleDeleteCallback(e, post, flag, sys, st);
    if e.destPath in st.targets {
      var st1 := st.(targets := RemoveFirst(st.targets, e.destPath));
      var o := DeleteCallback(e, post, false, sys, st1);
      DeleteLaunches(e, post, false, sys, st1);
      OwnScriptOnlyCwd(o.out, o.reply.changed, e, post, sys, st1, st);
      assert r.out == o.out && r.reply.changed == o.reply.changed;
    } else {
      OwnScriptOnlyInert(r.out, r.reply.changed, e, post, sys, st);
    }
  }

  /** `_single_erase_saved_callback`: an entry matches when either its
      destination or the destination's `.saved` name is a target; every
      form present is removed from the list. A matched entry goes through
      `_erase_saved_callback` with a clear flag; a reported change registers
      the parent directory of the backup. */
  function SingleEraseSavedCallback(e: Entry, post: PostDict, flag: bool, sys: Sys, st: State): (r: Outcome)
    ensures (e.destPath !in st.targets && SavedName(e.destPath) !in st.targets) ==>
      r == Outcome(Reply(true, flag), st, [])
    ensures (e.destPath in st.targets || SavedName(e.destPath) in st.targets) ==>
      && multiset(r.st.targets) == multiset(st.targets) - multiset{e.destPath, SavedName(e.destPath)}
      && (r.reply.goOn <==> r.st.targets != [])
      && r.reply.changed == (!e.srcIsDir && e.saved != Absent)
    ensures st.umask == StrictUmask ==> r.st.umask == StrictUmask
  {
    if e.destPath !in st.targets && SavedName(e.destPath) !in st.targets then
      Outcome(Reply(true, flag), st, [])
    else
      var o := EraseSavedCallback(e, post, false, sys, st.(targets := EraseTargets(st.targets, e.destPath)));
      var st2 :=
        if o.reply.changed then RegisterDir(Dirname(SavedName(e.destPath)), e.parent.Dir?, post, o.st)
        else o.st;
      Outcome(Reply(st2.targets != [], o.reply.changed), st2, o.out)
  }

  /** A matched entry of the targeted erase pass deletes its backup when
      the entry is a file whose backup exists, and only then registers the
      backup's parent directory; nothing else happens. */
  lemma SingleEraseSavedEffects(e: Entry, post: PostDict, flag: bool, sys: Sys, st: State)
    requires e.destPath in st.targets || SavedName(e.destPath) in st.targets
    ensures var r := SingleEraseSavedCallback(e, post, flag, sys, st);
      && r.st.ledger == LedgerAfter(r.reply.changed, SavedName(e.destPath), e, post, st.ledger)
      && r.out == (if r.reply.changed then [Deleted(SavedName(e.destPath))] else [])
  {
    var o := EraseSavedCallback(e, post, false, sys, st.(targets := EraseTargets(st.targets, e.destPath)));
    var r := SingleEraseSavedCallback(e, post, flag, sys, st);
    assert r.out == o.out && r.reply.changed == o.reply.changed && o.st.ledger == st.ledger;
    if e.srcIsDir {
      assert o.out == [] && !o.reply.changed;
    } else {
      assert o.out == if e.saved != Absent then [Deleted(SavedName(e.destPath))] else [];
    }
  }

  /** The targeted erase pass runs no command at all: its only event is
      the deletion of the backup. */
  lemma SingleEraseSavedLaunches(e: Entry, post: PostDict, flag: bool, sys: Sys, st: State)
    ensures forall ev :: ev in SingleEraseSavedCallback(e, post, flag, sys, st).out ==>
      ev == Deleted(SavedName(e.destPath))
  {
    if e.destPath in st.targets || SavedName(e.destPath) in st.targets {
      SingleEraseSavedEffects(e, post, flag, sys, st);
    }
  }

  /** The target list after a match of the targeted erase pass: the first
      occurrence of the path and then of its `.saved` name are removed,
      each when present, which takes both out of the multiset once. */
  function EraseTargets(t: seq<Path>, p: Path): (r: seq<Path>)
    ensures multiset(r) == multiset(t) - multiset{p, SavedName(p)}
  {
    var s := SavedName(p);
    assert s != p by { assert |s| > |p|; }
    RemoveIfPresent(RemoveIfPresent(t, p), s)
  }

  /** `_reference_callback`: a matched target has its chosen source shown;
      nothing is ever reported as changed. */
  function ReferenceCallback(e: Entry, post: PostDict, flag: bool, sys: Sys, st: State): (r: Outcome)
    ensures !r.reply.changed
    ensures e.destPath !in st.targets ==> r == Outcome(Reply(true, false), st, [])
    ensures e.destPath in st.targets ==>
      && r.st == st.(targets := RemoveFirst(st.targets, e.destPath))
      && (r.reply.goOn <==> r.st.targets != [])
      && r.out == [SourceShown(e.srcPath)]
  {
    if e.destPath !in st.targets then Outcome(Reply(true, false), st, [])
    else
      var st1 := st.(targets := RemoveFirst(st.targets, e.destPath));
      Outcome(Reply(st1.targets != [], false), st1, [SourceShown(e.srcPath)])
  }

  /** The argument vector of the diff run: the configured diff command split
      shell-style, then the destination, then the source. */
  function DiffArgv(sys: Sys, e: Entry): seq<string> {
    sys.env.split(sys.cfg.diffCmd) + [e.destPath, e.srcPath]
  }

  /** `_diff_callback`: a matched target is diffed against its source;
      nothing is ever reported as changed. */
  function DiffCallback(e: Entry, post: PostDict, flag: bool, sys: Sys, st: State): (r: Outcome)
    ensures !r.reply.changed
    ensures e.destPath !in st.targets ==> r == Outcome(Reply(true, false), st, [])
    ensures e.destPath in st.targets ==>
      && r.st == st.(targets := RemoveFirst(st.targets, e.destPath))
      && (r.reply.goOn <==> r.st.targets != [])
      && r.out == [DiffStarted(DiffArgv(sys, e))]
  {
    if e.destPath !in st.targets then Outcome(Reply(true, false), st, [])
    else
      var st1 := st.(targets := RemoveFirst(st.targets, e.destPath));
      Outcome(Reply(st1.targets != [], false), st1, [DiffStarted(DiffArgv(sys, e))])
  }
}
