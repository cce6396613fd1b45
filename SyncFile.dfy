/**
 One run of sync_folders: pass 1 walks the source tree top-down, creating
 missing replica directories and copying missing or stale files; pass 2 walks
 the replica tree and removes every file and directory the source lacks.
 Each logging.info line becomes an Action in the run's log.
 */
module SyncFile {
  import opened FileTree

  /** One line of the synchronizer's log, naming the relative path acted on. */
  datatype Action =
    | DirCreated(path: Path)
    | FileCreated(path: Path)
    | FileUpdated(path: Path)
    | FileRemoved(path: Path)
    | DirRemoved(path: Path)
  {
    predicate IsRemoval() { FileRemoved? || DirRemoved? }
  }

  /** The log lines for a decision: one when there is an action, none otherwise. */
  function Lines(d: Option<Action>): seq<Action>
  {
    if d.Some? then [d.value] else []
  }

  /** No two actions of a log touch the same path. */
  predicate EachPathOnce(log: seq<Action>)
  {
    forall i, j :: 0 <= i < j < |log| ==> log[i].path != log[j].path
  }

  /** No action comes after an action on a path beneath it: ancestors are handled first. */
  predicate AncestorsFirst(log: seq<Action>)
  {
    forall i, j :: 0 <= i < j < |log| ==> !(log[j].path < log[i].path)
  }

  /**
   Where both trees have an entry, both are directories or both are files.
   A path that changed between file and directory is outside this model.
   */
  predicate TypesAgree(source: Tree, replica: Tree)
  {
    forall p :: p in source && p in replica ==> source[p].Dir? == replica[p].Dir?
  }

  /** The replica entry is current for the source entry: same kind, and a file at least as new. */
  predicate Current(s: Node, r: Node)
  {
    match s
    case Dir => r.Dir?
    case File(_, m) => r.File? && r.mtime >= m
  }

  /** The replica holds exactly the source's paths, each one current. */
  predicate UpToDate(source: Tree, replica: Tree)
  {
    && source.Keys == replica.Keys
    && forall p :: p in source ==> Current(source[p], replica[p])
  }

  // ---------------------------------------------------------------------------
  // Pass 1: source -> replica
  // ---------------------------------------------------------------------------

  /**
   What pass 1 does for the source entry `p`, seen against the replica as it
   was before the run: create a missing directory, copy a missing file, copy a
   file whose source mtime is strictly newer, or nothing at all.
   */
  function CopyDecision(source: Tree, replica: Tree, p: Path): Option<Action>
    requires p in source
  {
    match source[p]
    case Dir => if p in replica then None else Some(DirCreated(p))
    case File(_, m) =>
      if p !in replica then Some(FileCreated(p))
      else if replica[p].File? && m > replica[p].mtime then Some(FileUpdated(p))
      else None
  }

  /** `a` is one of the actions pass 1 reports. */
  predicate IsCopyAction(source: Tree, replica: Tree, a: Action)
  {
    a.path in source && CopyDecision(source, replica, a.path) == Some(a)
  }

  /** The replica once pass 1 has handled the source entries in `done`. */
  function CopiedOn(source: Tree, replica: Tree, done: set<Path>): Tree
    requires done <= source.Keys
  {
    map p | p in replica.Keys + done ::
      if p in done && CopyDecision(source, replica, p).Some? then source[p] else replica[p]
  }

  /** The replica after pass 1. */
  function Copied(source: Tree, replica: Tree): Tree
  {
    CopiedOn(source, replica, source.Keys)
  }

  /**
   Pass 1 (syncfile.py lines 11-33). The walk takes any source entry whose
   parent it has already handled; the order among the rest is left open, as
   os.walk leaves it.
   */
  method CopyPass(source: Tree, replica: Tree) returns (fs: Tree, log: seq<Action>)
    requires WellFormed(source) && WellFormed(replica) && TypesAgree(source, replica)
    ensures fs == Copied(source, replica)
    ensures WellFormed(fs) && TypesAgree(source, fs)
    ensures forall a :: a in log <==> IsCopyAction(source, replica, a)
    ensures EachPathOnce(log)
    // a directory's creation is reported before any action beneath it
    ensures AncestorsFirst(log)
    ensures log == [] <==> forall p :: p in source ==> CopyDecision(source, replica, p).None?
  {
    fs, log := replica, [];
    var todo := source.Keys;
    ghost var done: set<Path> := {};
    while todo != {}
      invariant CopyWalked(source, replica, todo, done, fs, log)
      decreases |todo|
    {
      var q :| q in todo;
      TopMostExists(todo, q);
      var p :| p in todo && TopMost(p, todo);
      CopyReady(source, replica, todo, done, fs, log, p);
      var fs', action := CopyEntry(source, fs, p);
      CopyAdvance(source, replica, todo, done, fs, log, p);
      fs, log := fs', log + Lines(action);
      todo := todo - {p};
      done := done + {p};
    }
    CopiedWellFormed(source, replica);
  }

  /**
   Pass 1's work on one source entry `p` (lines 16-20 for a directory, 24-33
   for a file), against the replica `fs`; `action` is what is logged, if anything.
   */
  method CopyEntry(source: Tree, fs: Tree, p: Path) returns (fs': Tree, action: Option<Action>)
    requires p in source && p != []
    requires forall k :: 0 < k < |p| ==> p[..k] in fs
    ensures action == CopyDecision(source, fs, p)
    ensures fs' == if action.Some? then fs[p := source[p]] else fs
  {
    fs', action := fs, None;
    match source[p]
    case Dir =>
      if p !in fs {
        MakeDirsOnlyLeaf(fs, p);
        fs' := MakeDirs(fs, p);
        action := Some(DirCreated(p));
      }
    case File(_, m) =>
      // shutil.copy2 carries the content and the mtime across
      if p !in fs {
        fs' := fs[p := source[p]];
        action := Some(FileCreated(p));
      } else if fs[p].File? && m > fs[p].mtime {
        fs' := fs[p := source[p]];
        action := Some(FileUpdated(p));
      }
  }

  /** A log that names each path once still does after an action on a new path. */
  lemma AppendNewPath(log: seq<Action>, a: Action)
    requires EachPathOnce(log)
    requires forall b :: b in log ==> b.path != a.path
    ensures EachPathOnce(log + [a])
  {
    forall i, j | 0 <= i < j < |log| + 1 ensures (log + [a])[i].path != (log + [a])[j].path {
      if j == |log| {
        assert log[i] in log;
      }
    }
  }

  /** A parent-closed set of walked entries that lacks `p` holds nothing beneath `p`. */
  lemma NothingBeneath(done: set<Path>, p: Path)
    requires ParentClosed(done) && p != [] && p !in done
    ensures forall q :: q in done ==> !(p < q)
  {
    forall q | q in done ensures !(p < q) {
      if p < q {
        assert q[..|p|] == p;
        PrefixIn(done, q, |p|);
      }
    }
  }

  /** An action on a path not beneath any logged one keeps ancestors first. */
  lemma AppendAncestorsFirst(log: seq<Action>, a: Action)
    requires AncestorsFirst(log)
    requires forall b :: b in log ==> !(a.path < b.path)
    ensures AncestorsFirst(log + [a])
  {
    forall i, j | 0 <= i < j < |log| + 1 ensures !((log + [a])[j].path < (log + [a])[i].path) {
      if j == |log| {
        assert log[i] in log;
      }
    }
  }

  /** The walk reaches `p` only once every ancestor of it has been handled. */
  lemma AncestorsDone(source: Tree, done: set<Path>, p: Path)
    requires WellFormed(source) && p in source && p !in done
    requires ParentClosed(done)
    requires TopMost(p, source.Keys - done)
    ensures ParentClosed(done + {p})
    ensures forall k :: 0 < k < |p| ==> p[..k] in done
  {
    forall k | 0 < k < |p| ensures p[..k] in done {
      assert Parent(p) in done;
      PrefixIn(done, Parent(p), k);
      assert p[..k] == Parent(p)[..k];
    }
  }

  /**
   Before the walk reaches `p`, the replica is as it was at `p`, so the
   decision taken there is the one seen against the original replica; and
   handling `p` changes the replica at `p` alone.
   */
  lemma CopiedOnStep(source: Tree, replica: Tree, done: set<Path>, p: Path)
    requires done <= source.Keys && p in source && p !in done
    ensures CopyDecision(source, CopiedOn(source, replica, done), p) == CopyDecision(source, replica, p)
    ensures CopiedOn(source, replica, done + {p}) ==
            if CopyDecision(source, replica, p).Some?
            then CopiedOn(source, replica, done)[p := source[p]]
            else CopiedOn(source, replica, done)
  {
    var fs := CopiedOn(source, replica, done);
    assert p in fs <==> p in replica;
    assert p in fs ==> fs[p] == replica[p];
  }

  /**
   The log of pass 1 having walked `done`: the actions decided for those
   entries, each path once, and empty exactly when none needed an action.
   */
  ghost predicate CopyLogged(source: Tree, replica: Tree, done: set<Path>, log: seq<Action>)
    requires done <= source.Keys
  {
    && (forall a :: a in log ==> a.path in done && IsCopyAction(source, replica, a))
    && (forall q :: q in done && CopyDecision(source, replica, q).Some? ==>
                    CopyDecision(source, replica, q).value in log)
    && EachPathOnce(log)
    && (log == [] <==> forall q :: q in done ==> CopyDecision(source, replica, q).None?)
  }

  /**
   The state of pass 1 while it walks: `todo` and `done` split the source's
   entries, each walked entry's parent was walked too, and the replica and
   the log are what the walked entries call for.
   */
  ghost predicate CopyWalked(source: Tree, replica: Tree, todo: set<Path>, done: set<Path>,
                             fs: Tree, log: seq<Action>)
  {
    && todo !! done && todo + done == source.Keys
    && ParentClosed(done)
    && fs == CopiedOn(source, replica, done)
    && CopyLogged(source, replica, done, log)
    && AncestorsFirst(log)
  }

  /** A top-most entry still to walk finds its ancestors in place and the decision unchanged. */
  lemma CopyReady(source: Tree, replica: Tree, todo: set<Path>, done: set<Path>,
                  fs: Tree, log: seq<Action>, p: Path)
    requires WellFormed(source) && CopyWalked(source, replica, todo, done, fs, log)
    requires p in todo && TopMost(p, todo)
    ensures p in source && p != []
    ensures forall k :: 0 < k < |p| ==> p[..k] in fs
    ensures CopyDecision(source, fs, p) == CopyDecision(source, replica, p)
  {
    assert todo == source.Keys - done;
    AncestorsDone(source, done, p);
    CopiedOnStep(source, replica, done, p);
  }

  /** Handling a top-most entry `p` moves it from `todo` to `done`. */
  lemma CopyAdvance(source: Tree, replica: Tree, todo: set<Path>, done: set<Path>,
                    fs: Tree, log: seq<Action>, p: Path)
    requires WellFormed(source) && CopyWalked(source, replica, todo, done, fs, log)
    requires p in todo && TopMost(p, todo)
    ensures var d := CopyDecision(source, replica, p);
            CopyWalked(source, replica, todo - {p}, done + {p},
                       if d.Some? then fs[p := source[p]] else fs, log + Lines(d))
    ensures |todo - {p}| < |todo|
  {
    assert todo == source.Keys - done;
    AncestorsDone(source, done, p);
    CopiedOnStep(source, replica, done, p);
    CopyLogStep(source, replica, done, log, p);
    CopyOrderStep(source, replica, done, log, p);
    Visit(source.Keys, todo, done, p);
  }

  /** Pass 1 never reaches an entry beneath one it has already walked. */
  lemma CopyOrderStep(source: Tree, replica: Tree, done: set<Path>, log: seq<Action>, p: Path)
    requires done <= source.Keys && p in source && p != [] && p !in done
    requires ParentClosed(done) && CopyLogged(source, replica, done, log) && AncestorsFirst(log)
    ensures AncestorsFirst(log + Lines(CopyDecision(source, replica, p)))
  {
    var d := CopyDecision(source, replica, p);
    if d.Some? {
      NothingBeneath(done, p);
      assert d.value.path == p;
      AppendAncestorsFirst(log, d.value);
    }
  }

  /** The log of pass 1 after one more entry. */
  lemma CopyLogStep(source: Tree, replica: Tree, done: set<Path>, log: seq<Action>, p: Path)
    requires done <= source.Keys && p in source && p !in done
    requires CopyLogged(source, replica, done, log)
    ensures CopyLogged(source, replica, done + {p}, log + Lines(CopyDecision(source, replica, p)))
  {
    var d := CopyDecision(source, replica, p);
    if d.Some? {
      assert d.value.path == p;
      AppendNewPath(log, d.value);
    }
  }

  /** Moving `p` from the entries still to walk to the ones walked keeps a partition of `keys`. */
  lemma Visit(keys: set<Path>, todo: set<Path>, done: set<Path>, p: Path)
    requires todo !! done && todo + done == keys && p in todo
    ensures (todo - {p}) !! (done + {p}) && (todo - {p}) + (done + {p}) == keys
    ensures |todo - {p}| < |todo|
  {
  }

  /** What pass 1 leaves in the replica, entry by entry. */
  lemma CopiedFacts(source: Tree, replica: Tree)
    requires TypesAgree(source, replica)
    ensures var fs := Copied(source, replica);
      && (forall p :: p in source ==> p in fs && fs[p].Dir? == source[p].Dir?)
      && (forall p :: (p in source && p in replica && source[p].File? && replica[p].File?
                       && replica[p].mtime < source[p].mtime) ==> fs[p] == source[p])
      && (forall p :: (p in source && p in replica && !(source[p].File? && replica[p].File?
                       && replica[p].mtime < source[p].mtime)) ==> fs[p] == replica[p])
      && (forall p :: p in source && p !in replica ==> fs[p] == source[p])
      && (forall p :: p in replica ==> p in fs)
      && (forall p :: p in fs && p !in source ==> p in replica && fs[p] == replica[p])
  {
  }

  // ---------------------------------------------------------------------------
  // Pass 2: prune the replica
  // ---------------------------------------------------------------------------

  /** The log line for removing the entry `p` of `t`. */
  function Removal(t: Tree, p: Path): Action
    requires p in t
  {
    if t[p].Dir? then DirRemoved(p) else FileRemoved(p)
  }

  /**
   What pass 2 does for the replica entry `p`, seen against the replica as
   pass 2 found it: nothing when the source has `p`; nothing either when the
   source lacks its parent, for then an ancestor of `p` is removed first and
   the walk never reaches `p`; otherwise `p` is removed.
   */
  function PruneDecision(source: Tree, replica: Tree, p: Path): Option<Action>
    requires p in replica
  {
    if p in source || (|p| > 1 && Parent(p) !in source) then None
    else Some(Removal(replica, p))
  }

  /** `a` is one of the actions pass 2 reports. */
  predicate IsPruneAction(source: Tree, replica: Tree, a: Action)
  {
    a.path in replica && PruneDecision(source, replica, a.path) == Some(a)
  }

  /** The replica after pass 2: the entries whose paths the source also has. */
  function Pruned(source: Tree, replica: Tree): Tree
  {
    map p | p in replica && p in source :: replica[p]
  }

  /**
   Pass 2 (syncfile.py lines 36-54). The walk takes any replica entry whose
   parent it has already handled; an entry that went with an ancestor's
   rmtree is not visited again.
   */
  method PrunePass(source: Tree, replica: Tree) returns (fs: Tree, log: seq<Action>)
    requires WellFormed(source) && WellFormed(replica)
    ensures fs == Pruned(source, replica)
    // nothing the source lacks remains
    ensures forall p :: p in fs ==> p in source
    // nothing the source has is removed, nothing is created or modified
    ensures forall p :: p in replica && p in source ==> p in fs
    ensures forall p :: p in fs ==> p in replica && fs[p] == replica[p]
    // a removed directory takes its whole subtree with it
    ensures forall a, p :: a in log && a.DirRemoved? && p in fs ==> !(a.path <= p)
    ensures WellFormed(fs)
    ensures forall a :: a in log <==> IsPruneAction(source, replica, a)
    ensures EachPathOnce(log)
    // what went with a removed directory is not reported again
    ensures forall a, b :: a in log && b in log ==> !(a.path < b.path)
    ensures log == [] <==> forall p :: p in replica ==> PruneDecision(source, replica, p).None?
  {
    fs, log := replica, [];
    var todo := replica.Keys;
    ghost var done: set<Path> := {};
    while todo != {}
      invariant todo !! done && todo + done == replica.Keys
      invariant PruneInvariant(source, replica, done, fs)
      invariant PruneLogged(source, replica, done, log)
      decreases |todo|
    {
      var q :| q in todo;
      TopMostExists(todo, q);
      var p :| p in todo && TopMost(p, todo);
      PruneStep(source, replica, done, fs, p);
      PruneLogStep(source, replica, done, log, p);
      if p in fs {
        var action;
        fs, action := PruneEntry(source, fs, p);
        log := log + Lines(action);
      }
      Visit(replica.Keys, todo, done, p);
      todo := todo - {p};
      done := done + {p};
    }
    PrunedFacts(source, replica, fs);
    NoRemovalBeneathRemoval(source, replica);
  }

  /**
   The replica after pass 2 has visited `p`: an entry the source lacks is
   gone, a directory with everything beneath it; nothing else changes.
   */
  function AfterVisit(source: Tree, fs: Tree, p: Path): (r: Tree)
    ensures forall q :: q in r ==> q in fs && r[q] == fs[q]
    ensures forall q :: q in fs && !(p <= q) ==> q in r
    ensures p in fs && p !in source ==> p !in r && (fs[p].Dir? ==> forall q :: q in r ==> !(p <= q))
    ensures p !in fs || p in source ==> r == fs
  {
    if p in fs && p !in source then (if fs[p].Dir? then RmTree(fs, p) else fs - {p}) else fs
  }

  /**
   Pass 2's work on one replica entry `p` that the walk reached (lines 40-46
   for a file, 48-54 for a directory): remove it when the source lacks it.
   */
  method PruneEntry(source: Tree, fs: Tree, p: Path) returns (fs': Tree, action: Option<Action>)
    requires p in fs
    ensures action == if p in source then None else Some(Removal(fs, p))
    ensures fs' == AfterVisit(source, fs, p)
  {
    fs', action := fs, None;
    if p !in source {
      if fs[p].File? {
        fs' := fs - {p};
        action := Some(FileRemoved(p));
      } else {
        fs' := RmTree(fs, p);
        action := Some(DirRemoved(p));
      }
    }
  }

  /**
   Pass 2 so far, having walked `done`: entries are only ever removed; every
   entry the source has is still there; every walked entry the source lacks
   is gone; every unwalked entry whose parent the source has is still there
   to be reached.
   */
  ghost predicate PruneInvariant(source: Tree, replica: Tree, done: set<Path>, fs: Tree)
  {
    && (forall q :: q in fs ==> q in replica && fs[q] == replica[q])
    && WellFormed(fs)
    && (forall q :: q in replica && q in source ==> q in fs)
    && (forall q :: q in done && q !in source ==> q !in fs)
    && (forall q :: q in replica && q !in done && (|q| <= 1 || Parent(q) in source) ==> q in fs)
  }

  /**
   The walk reaches `p` exactly when the source has its parent, and then
   does what PruneDecision says; afterwards the invariant holds of one more
   walked entry.
   */
  lemma PruneStep(source: Tree, replica: Tree, done: set<Path>, fs: Tree, p: Path)
    requires WellFormed(source) && WellFormed(replica)
    requires PruneInvariant(source, replica, done, fs)
    requires p in replica && p !in done && TopMost(p, replica.Keys - done)
    ensures PruneDecision(source, replica, p) == if p in fs && p !in source then Some(Removal(fs, p)) else None
    ensures PruneInvariant(source, replica, done + {p}, AfterVisit(source, fs, p))
  {
    if |p| > 1 && Parent(p) !in source {
      assert Parent(p) in replica && Parent(p) in done;
      assert p !in fs;
    } else {
      assert p in fs;
    }
    var fs' := AfterVisit(source, fs, p);
    if p in fs && p !in source {
      forall r | r in replica && r in source ensures r in fs' {
        if p <= r { AncestorPresent(source, r, p); }
      }
      forall r | r in replica && r !in done + {p} && (|r| <= 1 || Parent(r) in source) ensures r in fs' {
        if p <= r {
          assert r != p && |p| < |r|;
          assert Parent(r)[..|p|] == p;
          AncestorPresent(source, Parent(r), p);
        }
      }
      if fs[p].File? {
        forall r | r in fs' && |r| > 1 ensures Parent(r) in fs' && fs'[Parent(r)].Dir? {
          assert Parent(r) in fs;
        }
      }
    }
  }

  /**
   The log of pass 2 having walked `done`: the actions decided for those
   entries, each path once, and empty exactly when none needed an action.
   */
  ghost predicate PruneLogged(source: Tree, replica: Tree, done: set<Path>, log: seq<Action>)
    requires done <= replica.Keys
  {
    && (forall a :: a in log ==> a.path in done && IsPruneAction(source, replica, a))
    && (forall q :: q in done && PruneDecision(source, replica, q).Some? ==>
                    PruneDecision(source, replica, q).value in log)
    && EachPathOnce(log)
    && (log == [] <==> forall q :: q in done ==> PruneDecision(source, replica, q).None?)
  }

  /** The log of pass 2 after one more entry. */
  lemma PruneLogStep(source: Tree, replica: Tree, done: set<Path>, log: seq<Action>, p: Path)
    requires done <= replica.Keys && p in replica && p !in done
    requires PruneLogged(source, replica, done, log)
    ensures PruneLogged(source, replica, done + {p}, log + Lines(PruneDecision(source, replica, p)))
  {
    var d := PruneDecision(source, replica, p);
    if d.Some? {
      assert d.value.path == p;
      AppendNewPath(log, d.value);
    }
  }

  /** Once the whole replica is walked, pass 2 has left exactly the entries the source has. */
  lemma PrunedFacts(source: Tree, replica: Tree, fs: Tree)
    requires WellFormed(source) && WellFormed(replica)
    requires PruneInvariant(source, replica, replica.Keys, fs)
    ensures fs == Pruned(source, replica)
    ensures forall a, r :: IsPruneAction(source, replica, a) && a.DirRemoved? && r in fs ==> !(a.path <= r)
  {
    forall a, r | IsPruneAction(source, replica, a) && a.DirRemoved? && r in fs ensures !(a.path <= r) {
      if a.path <= r { AncestorPresent(source, r, a.path); }
    }
  }

  /**
   Pass 2 never reports a removal beneath another one: it acts only where
   the source has the parent, and the source then has every ancestor too.
   */
  lemma NoRemovalBeneathRemoval(source: Tree, replica: Tree)
    requires WellFormed(source) && WellFormed(replica)
    ensures forall a, b :: IsPruneAction(source, replica, a) && IsPruneAction(source, replica, b)
                           ==> !(a.path < b.path)
  {
    forall a, b | IsPruneAction(source, replica, a) && IsPruneAction(source, replica, b)
      ensures !(a.path < b.path)
    {
      if a.path < b.path {
        assert |b.path| > 1 && Parent(b.path) in source;
        assert a.path <= Parent(b.path);
        AncestorPresent(source, Parent(b.path), a.path);
      }
    }
  }

  // ---------------------------------------------------------------------------
  // A whole run
  // ---------------------------------------------------------------------------

  /** The replica after one run of sync_folders. */
  function Synced(source: Tree, replica: Tree): Tree
  {
    Pruned(source, Copied(source, replica))
  }

  /**
   sync_folders (syncfile.py lines 7-54): pass 1, then pass 2 on the replica
   pass 1 left. The source is a value here and so is never changed.
   */
  method SyncFolders(source: Tree, replica: Tree) returns (synced: Tree, log: seq<Action>)
    requires WellFormed(source) && WellFormed(replica) && TypesAgree(source, replica)
    ensures synced == Synced(source, replica)
    ensures WellFormed(synced) && UpToDate(source, synced)
    ensures forall a :: a in log <==> IsCopyAction(source, replica, a) || IsPruneAction(source, replica, a)
    // every creation and update is reported before any removal
    ensures forall i, j :: 0 <= i < j < |log| && log[i].IsRemoval() ==> log[j].IsRemoval()
    ensures EachPathOnce(log)
    // a directory's creation is reported before any action beneath it
    ensures AncestorsFirst(log)
    // nothing beneath a reported removal is reported again
    ensures forall a, b :: a in log && b in log && a.IsRemoval() ==> !(a.path < b.path)
    // a replica that is already current is left as it is, with nothing reported
    ensures UpToDate(source, replica) ==> synced == replica && log == []
  {
    var copied, copyLog := CopyPass(source, replica);
    var pruneLog;
    synced, pruneLog := PrunePass(source, copied);
    log := copyLog + pruneLog;
    PruneActionsOfCopied(source, replica);
    SyncedUpToDate(source, replica);
    RunLog(source, replica, copyLog, pruneLog);
    RunLogAncestorsFirst(source, replica, copyLog, pruneLog);
    RemovalsCoverTheirSubtrees(source, replica, log);
  }

  /**
   In a run's log nothing lies beneath a removal: not another removal, and
   not a creation or update either, since those are of source paths.
   */
  lemma RemovalsCoverTheirSubtrees(source: Tree, replica: Tree, log: seq<Action>)
    requires WellFormed(source) && WellFormed(replica)
    requires forall a :: a in log <==> IsCopyAction(source, replica, a) || IsPruneAction(source, replica, a)
    ensures forall a, b :: a in log && b in log && a.IsRemoval() ==> !(a.path < b.path)
  {
    NoRemovalBeneathRemoval(source, replica);
    forall a, b | a in log && b in log && a.IsRemoval() ensures !(a.path < b.path) {
      assert IsPruneAction(source, replica, a);
      if IsCopyAction(source, replica, b) && a.path < b.path {
        assert a.path != [] && a.path !in source;
        AncestorPresent(source, b.path, a.path);
      }
    }
  }

  /** The log of a run is pass 1's log followed by pass 2's. */
  lemma RunLog(source: Tree, replica: Tree, copyLog: seq<Action>, pruneLog: seq<Action>)
    requires forall a :: a in copyLog <==> IsCopyAction(source, replica, a)
    requires forall a :: a in pruneLog <==> IsPruneAction(source, replica, a)
    requires EachPathOnce(copyLog) && EachPathOnce(pruneLog)
    requires copyLog == [] <==> forall p :: p in source ==> CopyDecision(source, replica, p).None?
    requires pruneLog == [] <==> forall p :: p in replica ==> PruneDecision(source, replica, p).None?
    ensures var log := copyLog + pruneLog;
            && (forall i, j :: 0 <= i < j < |log| && log[i].IsRemoval() ==> log[j].IsRemoval())
            && EachPathOnce(log)
            && (UpToDate(source, replica) ==> log == [])
  {
    var log := copyLog + pruneLog;
    assert forall i :: 0 <= i < |copyLog| ==> log[i] == copyLog[i] && copyLog[i] in copyLog;
    assert forall i :: |copyLog| <= i < |log| ==> log[i] == pruneLog[i - |copyLog|] && pruneLog[i - |copyLog|] in pruneLog;
    if UpToDate(source, replica) {
      NothingToDo(source, replica);
    }
  }

  /**
   The run's log handles ancestors first: pass 1's log does; pass 2 removes
   nothing beneath another removal, since it acts only where the source has
   the parent; and nothing pass 2 removes lies above a source entry.
   */
  lemma RunLogAncestorsFirst(source: Tree, replica: Tree, copyLog: seq<Action>, pruneLog: seq<Action>)
    requires WellFormed(source) && WellFormed(replica)
    requires forall a :: a in copyLog ==> IsCopyAction(source, replica, a)
    requires forall a :: a in pruneLog ==> IsPruneAction(source, replica, a)
    requires AncestorsFirst(copyLog)
    ensures AncestorsFirst(copyLog + pruneLog)
  {
    var log := copyLog + pruneLog;
    forall i, j | 0 <= i < j < |log| ensures !(log[j].path < log[i].path) {
      if j < |copyLog| {
        assert log[i] == copyLog[i] && log[j] == copyLog[j];
      } else {
        var a, b := log[i], pruneLog[j - |copyLog|];
        assert b == log[j] && b in pruneLog;
        assert b.path in replica && b.path != [] && b.path !in source;
        if i < |copyLog| {
          assert a == copyLog[i] && a in copyLog;
          if b.path < a.path {
            AncestorPresent(source, a.path, b.path);
          }
        } else {
          assert a == pruneLog[i - |copyLog|] && a in pruneLog;
          assert a.path in replica && a.path !in source;
          if b.path < a.path {
            assert |a.path| > 1 && Parent(a.path) in source;
            assert b.path <= Parent(a.path);
            AncestorPresent(source, Parent(a.path), b.path);
          }
        }
      }
    }
  }

  // ---------------------------------------------------------------------------
  // Properties of a run
  // ---------------------------------------------------------------------------

  /** Pass 2 reports the same removals whether it sees the replica before or after pass 1. */
  lemma PruneActionsOfCopied(source: Tree, replica: Tree)
    ensures forall p :: p in Copied(source, replica) ==>
              PruneDecision(source, Copied(source, replica), p) ==
              if p in replica then PruneDecision(source, replica, p) else None
    ensures forall a :: IsPruneAction(source, Copied(source, replica), a) <==> IsPruneAction(source, replica, a)
  {
  }

  /** After pass 1 the replica is still a tree, and still agrees with the source on kinds. */
  lemma CopiedWellFormed(source: Tree, replica: Tree)
    requires WellFormed(source) && WellFormed(replica) && TypesAgree(source, replica)
    ensures WellFormed(Copied(source, replica))
    ensures TypesAgree(source, Copied(source, replica))
  {
    var c := Copied(source, replica);
    forall p | p in c && |p| > 1 ensures Parent(p) in c && c[Parent(p)].Dir? {
      var q := Parent(p);
      if p in source {
        assert q in source && source[q].Dir?;
      } else {
        assert q in replica && replica[q].Dir?;
      }
    }
  }

  /** A run leaves the replica up to date with the source: same paths, each entry current. */
  lemma SyncedUpToDate(source: Tree, replica: Tree)
    requires WellFormed(source) && WellFormed(replica) && TypesAgree(source, replica)
    ensures WellFormed(Synced(source, replica))
    ensures UpToDate(source, Synced(source, replica))
  {
    CopiedWellFormed(source, replica);
    var c := Copied(source, replica);
    var s := Synced(source, replica);
    forall p | p in s && |p| > 1 ensures Parent(p) in s && s[Parent(p)].Dir? {
      AncestorPresent(source, p, Parent(p));
    }
    forall p | p in source ensures p in s && Current(source[p], s[p]) {
      assert p in c;
    }
  }

  /** On a replica that is already up to date, a run reports nothing and changes nothing. */
  lemma NothingToDo(source: Tree, replica: Tree)
    requires UpToDate(source, replica)
    ensures forall p :: p in source ==> CopyDecision(source, replica, p).None?
    ensures forall p :: p in replica ==> PruneDecision(source, replica, p).None?
    ensures forall a :: !IsCopyAction(source, replica, a) && !IsPruneAction(source, replica, a)
    ensures Copied(source, replica) == replica
    ensures Synced(source, replica) == replica
  {
    forall a ensures !IsCopyAction(source, replica, a) {
      if a.path in source {
        assert Current(source[a.path], replica[a.path]);
      }
    }
    var c := Copied(source, replica);
    forall p | p in c ensures p in replica && c[p] == replica[p] {
      assert p in source && Current(source[p], replica[p]);
    }
    assert c == replica;
  }

  /**
   Idempotence: a second run on the trees the first one left reports no
   action and leaves the replica as it is.
   */
  lemma {:induction false} Idempotent(source: Tree, replica: Tree)
    requires WellFormed(source) && WellFormed(replica) && TypesAgree(source, replica)
    ensures var once := Synced(source, replica);
            && Synced(source, once) == once
            && forall a :: !IsCopyAction(source, once, a) && !IsPruneAction(source, once, a)
  {
    SyncedUpToDate(source, replica);
    NothingToDo(source, Synced(source, replica));
  }

  /**
   The replica holds no file edited after, or at the same time as, its source
   file but with different content.
   */
  predicate NoNewerEdits(source: Tree, replica: Tree)
  {
    forall p :: (p in source && p in replica && source[p].File? && replica[p].File?
                 && replica[p].mtime >= source[p].mtime) ==> replica[p].content == source[p].content
  }

  /**
   Convergence: after a run the replica has exactly the source's paths, with
   the same kinds; and when the replica held no equally new or newer edit
   of its own, every file has the source's content.
   */
  lemma Convergence(source: Tree, replica: Tree)
    requires WellFormed(source) && WellFormed(replica) && TypesAgree(source, replica)
    ensures var s := Synced(source, replica);
            && s.Keys == source.Keys
            && (forall p :: p in s ==> s[p].Dir? == source[p].Dir?)
            && (NoNewerEdits(source, replica) ==>
                  forall p :: p in s && s[p].File? ==> s[p].content == source[p].content)
  {
    SyncedUpToDate(source, replica);
  }

  /**
   A source file the replica lacks, or has only in a strictly older version,
   is the source's file after a run, content and mtime.
   */
  lemma MissingOrStaleFileCopied(source: Tree, replica: Tree, p: Path)
    requires WellFormed(source) && WellFormed(replica) && TypesAgree(source, replica)
    requires p in source && source[p].File?
    requires p !in replica || replica[p].mtime < source[p].mtime
    ensures Synced(source, replica)[p] == source[p]
  {
    CopiedFacts(source, replica);
  }

  /**
   A replica file at least as new as its source file is left as it is by a
   run, bytes and mtime, whatever its content.
   */
  lemma NewerFileKept(source: Tree, replica: Tree, p: Path)
    requires WellFormed(source) && WellFormed(replica) && TypesAgree(source, replica)
    requires p in source && p in replica && source[p].File? && replica[p].File?
    requires replica[p].mtime >= source[p].mtime
    ensures Synced(source, replica)[p] == replica[p]
  {
    CopiedFacts(source, replica);
  }

  /**
   Content does not always converge: a replica file edited later than its
   source keeps its own content, since only a strictly newer source is copied.
   */
  lemma NewerReplicaKeepsItsContent()
    ensures var name: Path := ["b.txt"];
            var source := map[name := File([88], 1)];
            var replica := map[name := File([89], 2)];
            Synced(source, replica)[name].content != source[name].content
  {
    var name: Path := ["b.txt"];
    var source := map[name := File([88], 1)];
    var replica := map[name := File([89], 2)];
    assert CopyDecision(source, replica, name) == None;
    assert Copied(source, replica)[name] == File([89], 2);
  }
}
