/** The passes of the synctool client over its two trees and the dispatch
    in `main`. The tree walker `synctool.overlay.visit` is not part of this
    model: a walk is a stub that hands the callback the entries it is given,
    in order, each with the post dict and the incoming flag the walker would
    pass, and stops as soon as the callback answers `go_on=False`. */
module Passes {
  import opened Results
  import opened Seqs
  import opened Paths
  import opened World
  import opened Runner
  import opened Callbacks
  import Options

  /** One call the walker makes: the entry, its `post_dict` and the
      "directory changed" flag it passes in. */
  datatype Visit = Visit(entry: Entry, post: PostDict, flag: bool)

  /** What the walker yields for the overlay tree and for the delete tree. */
  datatype Trees = Trees(overlay: seq<Visit>, delete: seq<Visit>)

  function VisitsOf(w: Trees, t: Tree): seq<Visit> {
    match t
    case OverlayTree => w.overlay
    case DeleteTree => w.delete
  }

  /** The callback a walk in mode `m` is run with. */
  function Callback(m: Mode, v: Visit, sys: Sys, st: State): Outcome {
    match m
    case Overlay => OverlayCallback(v.entry, v.post, v.flag, sys, st)
    case Delete => DeleteCallback(v.entry, v.post, v.flag, sys, st)
    case EraseSaved => EraseSavedCallback(v.entry, v.post, v.flag, sys, st)
    case SingleOverlay => SingleOverlayCallback(v.entry, v.post, v.flag, sys, st)
    case SingleDelete => SingleDeleteCallback(v.entry, v.post, v.flag, sys, st)
    case SingleEraseSaved => SingleEraseSavedCallback(v.entry, v.post, v.flag, sys, st)
    case Reference => ReferenceCallback(v.entry, v.post, v.flag, sys, st)
    case Diff => DiffCallback(v.entry, v.post, v.flag, sys, st)
  }

  /** A targeted callback only ever shrinks the target list, stops the
      walk only on an empty list, and never empties a non-empty list
      without stopping the walk. */
  ghost predicate Shrinks(st: State, r: Outcome) {
    && multiset(r.st.targets) <= multiset(st.targets)
    && (!r.reply.goOn ==> r.st.targets == [])
    && (st.targets != [] && r.reply.goOn ==> r.st.targets != [])
  }

  /** What every callback keeps: it leaves `DIR_CHANGED` well formed, and
      either works on the full tree (always going on, the target list and
      ledger untouched) or on the target list, which it shrinks. */
  lemma CallbackFacts(m: Mode, v: Visit, sys: Sys, st: State)
    ensures var r := Callback(m, v, sys, st);
      && (st.ledger.Valid() ==> r.st.ledger.Valid())
      && (!Targeted(m) ==> r.reply.goOn && r.st.targets == st.targets && r.st.ledger == st.ledger)
      && (Targeted(m) ==> Shrinks(st, r))
      && (st.umask == StrictUmask ==> r.st.umask == StrictUmask)
  {
    var e := v.entry;
    match m
    case Overlay =>
    case Delete =>
    case EraseSaved =>
    case SingleOverlay => SingleOverlayShrinks(e, v.post, v.flag, sys, st);
    case SingleDelete => SingleDeleteShrinks(e, v.post, v.flag, sys, st);
    case SingleEraseSaved => SingleEraseSavedShrinks(e, v.post, v.flag, sys, st);
    case Reference => ReferenceShrinks(e, v.post, v.flag, sys, st);
    case Diff => DiffShrinks(e, v.post, v.flag, sys, st);
  }

  lemma RemoveFirstShrinks(t: seq<Path>, p: Path)
    requires p in t
    ensures multiset(RemoveFirst(t, p)) <= multiset(t)
  {
  }

  lemma SingleOverlayShrinks(e: Entry, post: PostDict, flag: bool, sys: Sys, st: State)
    ensures var r := SingleOverlayCallback(e, post, flag, sys, st);
      Shrinks(st, r) && (st.ledger.Valid() ==> r.st.ledger.Valid())
  {
    if e.destPath in st.targets { RemoveFirstShrinks(st.targets, e.destPath); }
  }

  lemma SingleDeleteShrinks(e: Entry, post: PostDict, flag: bool, sys: Sys, st: State)
    ensures var r := SingleDeleteCallback(e, post, flag, sys, st);
      Shrinks(st, r) && (st.ledger.Valid() ==> r.st.ledger.Valid())
  {
    if e.destPath in st.targets { RemoveFirstShrinks(st.targets, e.destPath); }
  }

  lemma SingleEraseSavedShrinks(e: Entry, post: PostDict, flag: bool, sys: Sys, st: State)
    ensures var r := SingleEraseSavedCallback(e, post, flag, sys, st);
      Shrinks(st, r) && (st.ledger.Valid() ==> r.st.ledger.Valid())
  {
    if e.destPath in st.targets || SavedName(e.destPath) in st.targets {
      var r := SingleEraseSavedCallback(e, post, flag, sys, st);
      SingleEraseSavedEffects(e, post, flag, sys, st);
      if st.ledger.Valid() {
        LedgerAfterValid(r.reply.changed, SavedName(e.destPath), e, post, st.ledger);
      }
      assert r.st.targets == EraseTargets(st.targets, e.destPath);
      assert multiset(r.st.targets) <= multiset(st.targets);
    }
  }

  lemma ReferenceShrinks(e: Entry, post: PostDict, flag: bool, sys: Sys, st: State)
    ensures Shrinks(st, ReferenceCallback(e, post, flag, sys, st))
    ensures ReferenceCallback(e, post, flag, sys, st).st.ledger == st.ledger
  {
    if e.destPath in st.targets { RemoveFirstShrinks(st.targets, e.destPath); }
  }

  lemma DiffShrinks(e: Entry, post: PostDict, flag: bool, sys: Sys, st: State)
    ensures Shrinks(st, DiffCallback(e, post, flag, sys, st))
    ensures DiffCallback(e, post, flag, sys, st).st.ledger == st.ledger
  {
    if e.destPath in st.targets { RemoveFirstShrinks(st.targets, e.destPath); }
  }

  // ---------------------------------------------------------------------
  // Walks

  /** A callback as the walker sees it: a visit and the current state in,
      the reply with the new state and the events out. */
  type Cb = (Visit, State) -> Outcome

  /** The callback of mode `m`. */
  function CallbackOf(m: Mode, sys: Sys): Cb {
    (v: Visit, s: State) => Callback(m, v, sys, s)
  }

  /** The callback leaves a well-formed `DIR_CHANGED` well formed. */
  ghost predicate KeepsLedger(cb: Cb) {
    forall v: Visit, s: State :: s.ledger.Valid() ==> cb(v, s).st.ledger.Valid()
  }

  /** The callback works on the full tree: it always goes on and leaves
      the target list and `DIR_CHANGED` alone. */
  ghost predicate WholeTree(cb: Cb) {
    forall v: Visit, s: State :: cb(v, s).reply.goOn && cb(v, s).st.targets == s.targets && cb(v, s).st.ledger == s.ledger
  }

  /** The callback works on the target list, which it only shrinks. */
  ghost predicate ShrinksTargets(cb: Cb) {
    forall v: Visit, s: State :: Shrinks(s, cb(v, s))
  }

  /** The callback leaves the client's umask 077 in place: a post script
      runs under the administrator's umask, which is put back afterwards. */
  ghost predicate KeepsStrictUmask(cb: Cb) {
    forall v: Visit, s: State :: s.umask == StrictUmask ==> cb(v, s).st.umask == StrictUmask
  }

  lemma CallbackOfFacts(m: Mode, sys: Sys)
    ensures KeepsLedger(CallbackOf(m, sys))
    ensures KeepsStrictUmask(CallbackOf(m, sys))
    ensures !Targeted(m) ==> WholeTree(CallbackOf(m, sys))
    ensures Targeted(m) ==> ShrinksTargets(CallbackOf(m, sys))
  {
    var cb := CallbackOf(m, sys);
    forall v: Visit, s: State
      ensures s.ledger.Valid() ==> cb(v, s).st.ledger.Valid()
      ensures !Targeted(m) ==> cb(v, s).reply.goOn && cb(v, s).st.targets == s.targets && cb(v, s).st.ledger == s.ledger
      ensures Targeted(m) ==> Shrinks(s, cb(v, s))
      ensures s.umask == StrictUmask ==> cb(v, s).st.umask == StrictUmask
    {
      CallbackFacts(m, v, sys, s);
    }
  }

  /** The walker stub: the callback is called on each visit in turn and the
      walk ends early when it answers `go_on=False`. */
  function Walk(cb: Cb, vs: seq<Visit>, st: State): (r: Effect)
    ensures KeepsLedger(cb) && st.ledger.Valid() ==> r.st.ledger.Valid()
    ensures WholeTree(cb) ==> r.st.targets == st.targets && r.st.ledger == st.ledger
    ensures ShrinksTargets(cb) ==> multiset(r.st.targets) <= multiset(st.targets)
    ensures KeepsStrictUmask(cb) && st.umask == StrictUmask ==> r.st.umask == StrictUmask
    decreases |vs|
  {
    if |vs| == 0 then Effect(st, [])
    else
      var o := cb(vs[0], st);
      if !o.reply.goOn then Effect(o.st, o.out)
      else
        var rest := Walk(cb, vs[1..], o.st);
        Effect(rest.st, o.out + rest.out)
  }

  /** A walk in mode `m`. */
  function WalkVisits(m: Mode, vs: seq<Visit>, sys: Sys, st: State): (r: Effect)
    ensures st.ledger.Valid() ==> r.st.ledger.Valid()
    ensures !Targeted(m) ==> r.st.targets == st.targets && r.st.ledger == st.ledger
    ensures Targeted(m) ==> multiset(r.st.targets) <= multiset(st.targets)
    ensures st.umask == StrictUmask ==> r.st.umask == StrictUmask
  {
    CallbackOfFacts(m, sys);
    Walk(CallbackOf(m, sys), vs, st)
  }

  /** Once a walk with a target-list callback has emptied the list it has
      stopped: the entries after that point are never handed to the
      callback. */
  lemma {:induction false} WalkStopsOnceDone(cb: Cb, vs: seq<Visit>, k: nat, st: State)
    requires ShrinksTargets(cb) && st.targets != [] && k <= |vs|
    requires Walk(cb, vs[..k], st).st.targets == []
    ensures Walk(cb, vs, st) == Walk(cb, vs[..k], st)
  {
    var pre := vs[..k];
    assert k == 0 ==> Walk(cb, pre, st).st == st;
    if k > 0 {
      assert pre[0] == vs[0];
      var o := cb(vs[0], st);
      if o.reply.goOn {
        assert Shrinks(st, o);
        assert pre[1..] == vs[1..][..k - 1];
        WalkStopsOnceDone(cb, vs[1..], k - 1, o.st);
      }
    }
  }

  /** A walk over the full tree hands every entry to the callback: it ends
      only when the entries do. */
  lemma {:induction false} FullWalkVisitsAll(cb: Cb, vs: seq<Visit>, k: nat, st: State)
    requires WholeTree(cb) && k <= |vs|
    ensures Walk(cb, vs, st).out ==
      Walk(cb, vs[..k], st).out + Walk(cb, vs[k..], Walk(cb, vs[..k], st).st).out
  {
    if k == 0 {
      assert vs[..k] == [] && vs[k..] == vs;
    } else {
      var o := cb(vs[0], st);
      assert o.reply.goOn;
      assert vs[..k][0] == vs[0] && vs[..k][1..] == vs[1..][..k - 1] && vs[k..] == vs[1..][k - 1..];
      FullWalkVisitsAll(cb, vs[1..], k - 1, o.st);
    }
  }

  // ---------------------------------------------------------------------
  // Post scripts during a walk

  /** What running entry `v`'s callback may launch: only `v`'s own
      non-empty script from `post_dict`, and no command at all under
      NO_POST. */
  ghost predicate OwnLaunchesOnly(out: seq<Event>, v: Visit, sys: Sys) {
    && (forall ev :: ev in out && ev.PostRun? ==>
          ev.path == v.entry.destPath && ev.path in v.post && ev.script == v.post[ev.path] && ev.script != "")
    && (sys.cfg.noPost ==> forall ev :: ev in out ==> !IsCommandEvent(ev))
  }

  /** The launches a callback makes are for the visited entry's own script. */
  ghost predicate LaunchesOwnScript(cb: Cb, sys: Sys) {
    forall v: Visit, s: State :: OwnLaunchesOnly(cb(v, s).out, v, sys)
  }

  lemma OwnScriptOnlyLaunches(out: seq<Event>, changed: bool, v: Visit, sys: Sys, st: State)
    requires OwnScriptOnly(out, changed, v.entry, v.post, sys, st)
    ensures OwnLaunchesOnly(out, v, sys)
  {
  }

  lemma QuietLaunches(out: seq<Event>, v: Visit, sys: Sys)
    requires forall ev :: ev in out ==> !ev.PostRun? && !IsCommandEvent(ev)
    ensures OwnLaunchesOnly(out, v, sys)
  {
  }

  lemma OverlayOwnLaunches(v: Visit, sys: Sys, st: State)
    ensures OwnLaunchesOnly(OverlayCallback(v.entry, v.post, v.flag, sys, st).out, v, sys)
  {
    var r := OverlayCallback(v.entry, v.post, v.flag, sys, st);
    OverlayLaunches(v.entry, v.post, v.flag, sys, st);
    OwnScriptOnlyLaunches(r.out, r.reply.changed, v, sys, st);
  }

  lemma DeleteOwnLaunches(v: Visit, sys: Sys, st: State)
    ensures OwnLaunchesOnly(DeleteCallback(v.entry, v.post, v.flag, sys, st).out, v, sys)
  {
    var r := DeleteCallback(v.entry, v.post, v.flag, sys, st);
    DeleteLaunches(v.entry, v.post, v.flag, sys, st);
    OwnScriptOnlyLaunches(r.out, r.reply.changed, v, sys, st);
  }

  lemma EraseSavedOwnLaunches(v: Visit, sys: Sys, st: State)
    ensures OwnLaunchesOnly(EraseSavedCallback(v.entry, v.post, v.flag, sys, st).out, v, sys)
  {
    var r := EraseSavedCallback(v.entry, v.post, v.flag, sys, st);
    EraseSavedLaunches(v.entry, v.post, v.flag, sys, st);
    OwnScriptOnlyLaunches(r.out, r.reply.changed && v.entry.srcIsDir, v, sys, st);
  }

  lemma SingleOverlayOwnLaunches(v: Visit, sys: Sys, st: State)
    ensures OwnLaunchesOnly(SingleOverlayCallback(v.entry, v.post, v.flag, sys, st).out, v, sys)
  {
    var r := SingleOverlayCallback(v.entry, v.post, v.flag, sys, st);
    SingleOverlayLaunches(v.entry, v.post, v.flag, sys, st);
    OwnScriptOnlyLaunches(r.out, r.reply.changed, v, sys, st);
  }

  lemma SingleDeleteOwnLaunches(v: Visit, sys: Sys, st: State)
    ensures OwnLaunchesOnly(SingleDeleteCallback(v.entry, v.post, v.flag, sys, st).out, v, sys)
  {
    var r := SingleDeleteCallback(v.entry, v.post, v.flag, sys, st);
    SingleDeleteLaunches(v.entry, v.post, v.flag, sys, st);
    OwnScriptOnlyLaunches(r.out, r.reply.changed, v, sys, st);
  }

  lemma SingleEraseSavedOwnLaunches(v: Visit, sys: Sys, st: State)
    ensures OwnLaunchesOnly(SingleEraseSavedCallback(v.entry, v.post, v.flag, sys, st).out, v, sys)
  {
    var r := SingleEraseSavedCallback(v.entry, v.post, v.flag, sys, st);
    SingleEraseSavedLaunches(v.entry, v.post, v.flag, sys, st);
    QuietLaunches(r.out, v, sys);
  }

  lemma ReferenceOwnLaunches(v: Visit, sys: Sys, st: State)
    ensures OwnLaunchesOnly(ReferenceCallback(v.entry, v.post, v.flag, sys, st).out, v, sys)
  {
    var r := ReferenceCallback(v.entry, v.post, v.flag, sys, st);
    assert r.out == [] || r.out == [SourceShown(v.entry.srcPath)];
    QuietLaunches(r.out, v, sys);
  }

  lemma DiffOwnLaunches(v: Visit, sys: Sys, st: State)
    ensures OwnLaunchesOnly(DiffCallback(v.entry, v.post, v.flag, sys, st).out, v, sys)
  {
    var r := DiffCallback(v.entry, v.post, v.flag, sys, st);
    assert r.out == [] || r.out == [DiffStarted(DiffArgv(sys, v.entry))];
    QuietLaunches(r.out, v, sys);
  }

  /** Every callback launches only the script of the entry it is handed,
      and under NO_POST it runs no command. */
  lemma CallbackLaunches(m: Mode, v: Visit, sys: Sys, st: State)
    ensures OwnLaunchesOnly(Callback(m, v, sys, st).out, v, sys)
  {
    match m
    case Overlay => OverlayOwnLaunches(v, sys, st);
    case Delete => DeleteOwnLaunches(v, sys, st);
    case EraseSaved => EraseSavedOwnLaunches(v, sys, st);
    case SingleOverlay => SingleOverlayOwnLaunches(v, sys, st);
    case SingleDelete => SingleDeleteOwnLaunches(v, sys, st);
    case SingleEraseSaved => SingleEraseSavedOwnLaunches(v, sys, st);
    case Reference => ReferenceOwnLaunches(v, sys, st);
    case Diff => DiffOwnLaunches(v, sys, st);
  }

  lemma CallbackOfLaunches(m: Mode, sys: Sys)
    ensures LaunchesOwnScript(CallbackOf(m, sys), sys)
  {
    var cb := CallbackOf(m, sys);
    forall v: Visit, s: State ensures OwnLaunchesOnly(cb(v, s).out, v, sys) {
      CallbackLaunches(m, v, sys, s);
    }
  }

  /** Every launch of a walk is the own script of an entry it visited,
      and under NO_POST the walk runs no command. */
  lemma {:induction false} WalkLaunches(cb: Cb, vs: seq<Visit>, sys: Sys, st: State)
    requires LaunchesOwnScript(cb, sys)
    ensures forall p, sc :: PostRun(p, sc) in Walk(cb, vs, st).out ==>
      sc != "" && exists v :: v in vs && v.entry.destPath == p && p in v.post && sc == v.post[p]
    ensures sys.cfg.noPost ==> forall ev :: ev in Walk(cb, vs, st).out ==> !IsCommandEvent(ev)
    decreases |vs|
  {
    if |vs| > 0 {
      var o := cb(vs[0], st);
      assert OwnLaunchesOnly(o.out, vs[0], sys);
      if o.reply.goOn {
        var rest := Walk(cb, vs[1..], o.st);
        WalkLaunches(cb, vs[1..], sys, o.st);
        assert Walk(cb, vs, st).out == o.out + rest.out;
        forall v | v in vs[1..] ensures v in vs { }
      }
    }
  }

  // ---------------------------------------------------------------------
  // DIR_CHANGED

  /** `for path in DIR_CHANGED: _run_post(obj, post_script)` over the keys
      in `keys`, each with the pair stored for it. */
  function Flush(keys: seq<Path>, pending: map<Path, Pending>, sys: Sys, st: State): (r: Effect)
    ensures r.st.targets == st.targets && r.st.ledger == st.ledger
    ensures forall ev :: ev in r.out ==> IsCommandEvent(ev)
    ensures forall p, s :: PostRun(p, s) in r.out ==> p in keys && p in pending && s == pending[p].script && s != ""
    ensures forall k :: k in keys && k in pending && !sys.cfg.noPost && pending[k].script != "" ==>
      PostRun(k, pending[k].script) in r.out
    ensures forall ev :: ev in r.out && ev.Shell? ==>
      ev.umask == sys.cfg.origUmask && exists k :: k in keys && k in pending && ev.cmd == pending[k].script
    ensures sys.cfg.noPost ==> r.out == []
    ensures st.umask == StrictUmask ==> r.st.umask == StrictUmask
    decreases |keys|
  {
    if |keys| == 0 then Effect(st, [])
    else
      var k := keys[0];
      var e := if k in pending then RunPost(k, pending[k].isDir, pending[k].script, sys, st) else Effect(st, []);
      var rest := Flush(keys[1..], pending, sys, e.st);
      assert forall p, s :: PostRun(p, s) in e.out ==> PostRun(p, s) in Filter(e.out, IsPostRun);
      assert forall j :: j in keys <==> j == k || j in keys[1..];
      Effect(rest.st, e.out + rest.out)
  }

  /** A flush starts no more shell commands than it launches scripts:
      each launch starts its script at most once. */
  lemma {:induction false} FlushShellsPerLaunch(keys: seq<Path>, pending: map<Path, Pending>, sys: Sys, st: State)
    ensures var r := Flush(keys, pending, sys, st);
      |Filter(r.out, IsShell)| <= |Filter(r.out, IsPostRun)|
    decreases |keys|
  {
    if |keys| > 0 {
      var k := keys[0];
      var e := if k in pending then RunPost(k, pending[k].isDir, pending[k].script, sys, st) else Effect(st, []);
      var rest := Flush(keys[1..], pending, sys, e.st);
      assert Flush(keys, pending, sys, st).out == e.out + rest.out;
      FlushShellsPerLaunch(keys[1..], pending, sys, e.st);
      if k in pending && !sys.cfg.noPost && pending[k].script != "" {
        assert |Filter(e.out, IsPostRun)| == 1;
      } else {
        assert e.out == [];
      }
      FilterConcat(e.out, rest.out, IsShell);
      FilterConcat(e.out, rest.out, IsPostRun);
    }
  }

  /** Each registered script runs once: with duplicate-free keys no
      post-script launch is repeated. */
  lemma {:induction false} FlushRunsEachOnce(keys: seq<Path>, pending: map<Path, Pending>, sys: Sys, st: State)
    requires NoDup(keys)
    ensures NoDup(Filter(Flush(keys, pending, sys, st).out, IsPostRun))
  {
    if |keys| > 0 {
      var k := keys[0];
      var e := if k in pending then RunPost(k, pending[k].isDir, pending[k].script, sys, st) else Effect(st, []);
      var rest := Flush(keys[1..], pending, sys, e.st);
      assert NoDup(keys[1..]) by {
        forall i, j | 0 <= i < j < |keys[1..]| ensures keys[1..][i] != keys[1..][j] {
          assert keys[1..][i] == keys[i + 1] && keys[1..][j] == keys[j + 1];
        }
      }
      FlushRunsEachOnce(keys[1..], pending, sys, e.st);
      FilterConcat(e.out, rest.out, IsPostRun);
      var a := Filter(e.out, IsPostRun);
      assert a == [] || a == [PostRun(k, pending[k].script)];
      assert k !in keys[1..];
      forall x | x in a ensures x !in Filter(rest.out, IsPostRun) {
        assert x == PostRun(k, pending[k].script);
      }
      NoDupConcat(a, Filter(rest.out, IsPostRun));
    }
  }

  // ---------------------------------------------------------------------
  // Passes and drivers

  /** One `synctool.overlay.visit(tree, callback)` call. */
  datatype Traversal = Traversal(tree: Tree, mode: Mode)

  /** Where a driver leaves the client: its state, the walks it made in
      order, and the events of those walks. */
  datatype Run = Run(st: State, walks: seq<Traversal>, out: seq<Event>)

  /** A walk of one tree without `DIR_CHANGED` (the full-tree and lookup
      passes). */
  function PlainPass(t: Tree, m: Mode, w: Trees, sys: Sys, st: State): (r: Run)
    ensures r.walks == [Traversal(t, m)]
    ensures !Targeted(m) ==> r.st.targets == st.targets && r.st.ledger == st.ledger
    ensures Targeted(m) ==> multiset(r.st.targets) <= multiset(st.targets)
    ensures st.umask == StrictUmask ==> r.st.umask == StrictUmask
  {
    var wk := WalkVisits(m, VisitsOf(w, t), sys, st);
    Run(wk.st, [Traversal(t, m)], wk.out)
  }

  /** `DIR_CHANGED = {}`, a walk of one tree, then every pending directory
      script run once. */
  function LedgerPass(t: Tree, m: Mode, w: Trees, sys: Sys, st: State): (r: Run)
    ensures r.walks == [Traversal(t, m)]
    ensures r.st.ledger.Valid()
    ensures Targeted(m) ==> multiset(r.st.targets) <= multiset(st.targets)
    ensures forall k :: k in r.st.ledger.pending && !sys.cfg.noPost && r.st.ledger.pending[k].script != "" ==>
      PostRun(k, r.st.ledger.pending[k].script) in r.out
    ensures forall p, sc :: PostRun(p, sc) in r.out ==>
      && sc != ""
      && ((p in r.st.ledger.pending && sc == r.st.ledger.pending[p].script) ||
          exists v :: v in VisitsOf(w, t) && v.entry.destPath == p && p in v.post && sc == v.post[p])
    ensures sys.cfg.noPost ==> forall ev :: ev in r.out ==> !IsCommandEvent(ev)
    ensures st.umask == StrictUmask ==> r.st.umask == StrictUmask
  {
    var st0 := st.(ledger := EmptyLedger);
    var wk := WalkVisits(m, VisitsOf(w, t), sys, st0);
    var fl := Flush(wk.st.ledger.order, wk.st.ledger.pending, sys, wk.st);
    CallbackOfLaunches(m, sys);
    WalkLaunches(CallbackOf(m, sys), VisitsOf(w, t), sys, st0);
    Run(fl.st, [Traversal(t, m)], wk.out + fl.out)
  }

  /** The ledger is emptied before each pass: what the pass does does not
      depend on what was registered before it. */
  lemma LedgerPassForgetsEarlierLedger(t: Tree, m: Mode, w: Trees, sys: Sys, st: State, l: Ledger)
    ensures LedgerPass(t, m, w, sys, st.(ledger := l)) == LedgerPass(t, m, w, sys, st)
  {
    assert st.(ledger := l).(ledger := EmptyLedger) == st.(ledger := EmptyLedger);
  }

  /** One "is not in the overlay tree" report per leftover target, in list
      order. */
  function Leftovers(ts: seq<Path>): (r: seq<Event>)
    ensures |r| == |ts|
    ensures forall i :: 0 <= i < |ts| ==> r[i] == NotInTree(ts[i])
  {
    if |ts| == 0 then [] else [NotInTree(ts[0])] + Leftovers(ts[1..])
  }

  /** The two-pass body of `single_files` (and of `single_erase_saved`):
      a ledger pass over the overlay tree, a ledger pass over the delete
      tree only while targets remain, then a report for each target that
      was never found. */
  function TwoPasses(first: Mode, second: Mode, w: Trees, sys: Sys, st: State): (r: Run)
    requires Targeted(first) && Targeted(second)
    ensures r.walks == (if LedgerPass(OverlayTree, first, w, sys, st).st.targets == []
                        then [Traversal(OverlayTree, first)]
                        else [Traversal(OverlayTree, first), Traversal(DeleteTree, second)])
    ensures multiset(r.st.targets) <= multiset(st.targets)
    ensures |r.st.targets| <= |r.out| &&
      r.out[|r.out| - |r.st.targets|..] == Leftovers(r.st.targets)
    ensures st.umask == StrictUmask ==> r.st.umask == StrictUmask
  {
    var p1 := LedgerPass(OverlayTree, first, w, sys, st);
    var p2 := if p1.st.targets != [] then LedgerPass(DeleteTree, second, w, sys, p1.st)
              else Run(p1.st, [], []);
    var tail := Leftovers(p2.st.targets);
    Run(p2.st, p1.walks + p2.walks, p1.out + p2.out + tail)
  }

  /** `single_files`. */
  function SingleFiles(w: Trees, sys: Sys, st: State): (r: Run)
    ensures r.walks == [Traversal(OverlayTree, SingleOverlay)] ||
            r.walks == [Traversal(OverlayTree, SingleOverlay), Traversal(DeleteTree, SingleDelete)]
    ensures multiset(r.st.targets) <= multiset(st.targets)
    ensures st.umask == StrictUmask ==> r.st.umask == StrictUmask
  {
    TwoPasses(SingleOverlay, SingleDelete, w, sys, st)
  }

  /** `single_erase_saved` without its first three lines (see the as-written
      model below): both trees are walked with the targeted erase callback. */
  function SingleEraseSavedFiles(w: Trees, sys: Sys, st: State): (r: Run)
    ensures r.walks == [Traversal(OverlayTree, SingleEraseSaved)] ||
            r.walks == [Traversal(OverlayTree, SingleEraseSaved), Traversal(DeleteTree, SingleEraseSaved)]
    ensures multiset(r.st.targets) <= multiset(st.targets)
    ensures st.umask == StrictUmask ==> r.st.umask == StrictUmask
  {
    TwoPasses(SingleEraseSaved, SingleEraseSaved, w, sys, st)
  }

  /** What running a driver comes to: it finishes, or Python raises before
      it is done. */
  datatype RunResult = Finished(run: Run) | Crashed(run: Run)

  /** `single_erase_saved` as written: its first statement reads the local
      `filename` before anything assigns it, so Python raises
      UnboundLocalError before any walk. */
  function SingleEraseSavedAsWritten(w: Trees, sys: Sys, st: State): (r: RunResult)
    ensures r.Crashed? && r.run.walks == [] && r.run.st == st
  {
    Crashed(Run(st, [], []))
  }

  /** The as-written driver never reaches a walk, while the body after its
      prologue always walks the overlay tree: no `.saved` file named on the
      command line is ever erased. */
  lemma SingleEraseSavedPrologueCrashes(w: Trees, sys: Sys, st: State)
    ensures SingleEraseSavedAsWritten(w, sys, st).Crashed?
    ensures SingleEraseSavedAsWritten(w, sys, st).run.walks == []
    ensures Traversal(OverlayTree, SingleEraseSaved) in SingleEraseSavedFiles(w, sys, st).walks
  {
  }

  /** `erase_saved`: both trees, with the full-tree erase callback. */
  function EraseSavedFiles(w: Trees, sys: Sys, st: State): (r: Run)
    ensures r.walks == [Traversal(OverlayTree, EraseSaved), Traversal(DeleteTree, EraseSaved)]
    ensures r.st.targets == st.targets && r.st.ledger == st.ledger
    ensures st.umask == StrictUmask ==> r.st.umask == StrictUmask
  {
    var p1 := PlainPass(OverlayTree, EraseSaved, w, sys, st);
    var p2 := PlainPass(DeleteTree, EraseSaved, w, sys, p1.st);
    Run(p2.st, p1.walks + p2.walks, p1.out + p2.out)
  }

  /** `overlay_files()` followed by `delete_files()`. */
  function OverlayThenDelete(w: Trees, sys: Sys, st: State): (r: Run)
    ensures r.walks == [Traversal(OverlayTree, Overlay), Traversal(DeleteTree, Delete)]
    ensures r.st.targets == st.targets && r.st.ledger == st.ledger
    ensures st.umask == StrictUmask ==> r.st.umask == StrictUmask
  {
    var p1 := PlainPass(OverlayTree, Overlay, w, sys, st);
    var p2 := PlainPass(DeleteTree, Delete, w, sys, p1.st);
    Run(p2.st, p1.walks + p2.walks, p1.out + p2.out)
  }

  /** `reference_files` and `diff_files`: one walk of the overlay tree, then
      a report for each target that was never found. */
  function LookupFiles(m: Mode, w: Trees, sys: Sys, st: State): (r: Run)
    requires m == Reference || m == Diff
    ensures r.walks == [Traversal(OverlayTree, m)]
    ensures multiset(r.st.targets) <= multiset(st.targets)
    ensures |r.st.targets| <= |r.out| &&
      r.out[|r.out| - |r.st.targets|..] == Leftovers(r.st.targets)
    ensures st.umask == StrictUmask ==> r.st.umask == StrictUmask
  {
    var p := PlainPass(OverlayTree, m, w, sys, st);
    var tail := Leftovers(p.st.targets);
    Run(p.st, p.walks, p.out + tail)
  }

  /** The end of `main`: umask 077, then the driver the action and the
      target list select. Every action starts with a walk of the overlay
      tree, and the client is still under umask 077 when it is done. */
  function Dispatch(action: Options.Action, w: Trees, sys: Sys, st: State): (r: Run)
    ensures |r.walks| > 0 && r.walks[0].tree == OverlayTree
    ensures r.st.umask == StrictUmask
  {
    var st0 := st.(umask := StrictUmask);
    match action
    case ActionDiff => LookupFiles(Diff, w, sys, st0)
    case ActionReference => LookupFiles(Reference, w, sys, st0)
    case ActionEraseSaved =>
      if |st0.targets| > 0 then SingleEraseSavedFiles(w, sys, st0) else EraseSavedFiles(w, sys, st0)
    case ActionDefault =>
      if |st0.targets| > 0 then SingleFiles(w, sys, st0) else OverlayThenDelete(w, sys, st0)
  }

  /** `--diff` and `--ref` walk the overlay tree only, with their own
      callback. */
  lemma DispatchLookupWalks(action: Options.Action, w: Trees, sys: Sys, st: State)
    ensures action == Options.ActionDiff ==>
      Dispatch(action, w, sys, st).walks == [Traversal(OverlayTree, Diff)]
    ensures action == Options.ActionReference ==>
      Dispatch(action, w, sys, st).walks == [Traversal(OverlayTree, Reference)]
  {
    var st0 := st.(umask := StrictUmask);
    if action == Options.ActionDiff {
      assert Dispatch(action, w, sys, st) == LookupFiles(Diff, w, sys, st0);
    } else if action == Options.ActionReference {
      assert Dispatch(action, w, sys, st) == LookupFiles(Reference, w, sys, st0);
    }
  }

  /** `--erase-saved` walks both trees; with targets named on the command
      line it uses the targeted erase callback throughout. */
  lemma DispatchEraseSavedWalks(w: Trees, sys: Sys, st: State)
    ensures st.targets == [] ==>
      Dispatch(Options.ActionEraseSaved, w, sys, st).walks ==
        [Traversal(OverlayTree, EraseSaved), Traversal(DeleteTree, EraseSaved)]
    ensures st.targets != [] ==>
      Dispatch(Options.ActionEraseSaved, w, sys, st).walks ==
        [Traversal(OverlayTree, SingleEraseSaved)] ||
      Dispatch(Options.ActionEraseSaved, w, sys, st).walks ==
        [Traversal(OverlayTree, SingleEraseSaved), Traversal(DeleteTree, SingleEraseSaved)]
  {
    var st0 := st.(umask := StrictUmask);
    var r := Dispatch(Options.ActionEraseSaved, w, sys, st);
    if st.targets != [] {
      assert r == SingleEraseSavedFiles(w, sys, st0);
    } else {
      assert r == EraseSavedFiles(w, sys, st0);
    }
  }

  /** With no action option the client updates: the whole overlay tree and
      then the whole delete tree, or with targets the targeted callbacks
      over the overlay tree and possibly the delete tree. */
  lemma DispatchDefaultWalks(w: Trees, sys: Sys, st: State)
    ensures st.targets == [] ==>
      Dispatch(Options.ActionDefault, w, sys, st).walks ==
        [Traversal(OverlayTree, Overlay), Traversal(DeleteTree, Delete)]
    ensures st.targets != [] ==>
      Dispatch(Options.ActionDefault, w, sys, st).walks ==
        [Traversal(OverlayTree, SingleOverlay)] ||
      Dispatch(Options.ActionDefault, w, sys, st).walks ==
        [Traversal(OverlayTree, SingleOverlay), Traversal(DeleteTree, SingleDelete)]
  {
    var st0 := st.(umask := StrictUmask);
    var r := Dispatch(Options.ActionDefault, w, sys, st);
    if st.targets != [] {
      assert r == SingleFiles(w, sys, st0);
    } else {
      assert r == OverlayThenDelete(w, sys, st0);
    }
  }
}
