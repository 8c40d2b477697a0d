/**
 * The mirror engine of src/main.rs: the per-entry loop of `main` that decides
 * between skipping a dataless file, skipping an existing destination and
 * copying, and writes one log record per entry.
 *
 * The tree walk is a given sequence of entries, every one under the source
 * root. The destination tree is the set of paths that exist there, a path
 * being its sequence of components. Directory creation and copying add paths
 * to that set; the paths at which the operating system refuses to create an
 * entry, and whether the source bytes can be read, are inputs. The log is the
 * sequence of records written, and the interactive progress output is the
 * sequence of `processed` counts at which a progress line is printed.
 */
module Mirror {
  import opened Wrappers
  import Dataless

  /** A filesystem path as its sequence of components. */
  type Path = seq<string>

  /** `p` is a prefix of `q`: `q` is `p` itself or lies below it. */
  predicate IsPrefix(p: Path, q: Path) {
    |p| <= |q| && q[..|p|] == p
  }

  /** Every non-empty prefix of `p` (its ancestors and `p` itself) is in `fs`. */
  ghost predicate PrefixesIn(p: Path, fs: set<Path>) {
    forall k :: 1 <= k <= |p| ==> p[..k] in fs
  }

  /**
   * One regular file found by the walk: its path, the outcome of listing its
   * extended attributes (`None` when the open or the listing fails), whether
   * `fs::copy` can open it, and whether its bytes can then be read to the end.
   */
  datatype Entry = Entry(path: Path, xattrs: Option<seq<string>>, openOk: bool, readOk: bool)

  /** The run's arguments: source root, destination root, verbose flag. */
  datatype Config = Config(source: Path, dest: Path, verbose: bool)

  /** One decision line of the log. */
  datatype Record =
    | SkippedDataless(source: Path)  // `SKIPPED (dataless): <source path>`
    | SkippedExists(rel: Path)       // `SKIPPED (exists): <relative path>`
    | Copied(rel: Path)              // `COPIED: <relative path>`

  /** The filesystem operation whose failure ends the run (a panic in `main`). */
  datatype Op = CreateDirs | CopyFile

  /** How the run stands: still going (or finished), or ended by a failed operation on a path. */
  datatype Status = Running | Aborted(op: Op, at: Path)

  /** Everything the loop changes: the destination tree, the log, the counter, the progress lines. */
  datatype State = State(fs: set<Path>, log: seq<Record>, processed: nat, progress: seq<nat>, status: Status)

  /** The walk yields only paths under the source root. */
  predicate UnderSource(source: Path, entries: seq<Entry>) {
    forall i :: 0 <= i < |entries| ==> IsPrefix(source, entries[i].path)
  }

  /** `strip_prefix`: the entry's path relative to the source root. */
  function RelPath(cfg: Config, e: Entry): (rel: Path)
    requires IsPrefix(cfg.source, e.path)
    ensures cfg.source + rel == e.path
  {
    e.path[|cfg.source|..]
  }

  /** `dest.join(rel_path)`: where the entry is mirrored. */
  function DestPath(cfg: Config, e: Entry): Path
    requires IsPrefix(cfg.source, e.path)
  {
    cfg.dest + RelPath(cfg, e)
  }

  /** `Path::parent` of a non-empty path. */
  function Parent(p: Path): Path
    requires p != []
  {
    p[..|p| - 1]
  }

  /** The result of `fs::create_dir_all`: the tree afterwards and whether it succeeded. */
  datatype DirsResult = DirsResult(fs: set<Path>, ok: bool)

  /**
   * `fs::create_dir_all(dir)`: create every missing non-empty prefix of `dir`,
   * shortest first, stopping at the first one the system refuses (the ones
   * created before it stay).
   */
  function MakeDirs(fs: set<Path>, refused: set<Path>, dir: Path): (r: DirsResult)
    ensures fs <= r.fs
    ensures forall p :: p in r.fs && p !in fs ==> 1 <= |p| <= |dir| && dir[..|p|] == p
    ensures r.ok <==> forall k :: 1 <= k <= |dir| ==> dir[..k] in fs || dir[..k] !in refused
    ensures r.ok ==> PrefixesIn(dir, r.fs)
    decreases |dir|
  {
    if dir == [] then
      DirsResult(fs, true)
    else
      var up := MakeDirs(fs, refused, Parent(dir));
      assert forall k :: 1 <= k < |dir| ==> Parent(dir)[..k] == dir[..k];
      assert dir[..|dir|] == dir;
      if !up.ok then
        up
      else if dir in up.fs then
        up
      else if dir in refused then
        DirsResult(up.fs, false)
      else
        DirsResult(up.fs + {dir}, true)
  }

  /**
   * The decision for one entry, in priority order: a dataless source is
   * skipped, then an existing destination is skipped, otherwise it is copied.
   */
  function Decision(cfg: Config, fs: set<Path>, e: Entry): Record
    requires IsPrefix(cfg.source, e.path)
  {
    if Dataless.Verdict(e.xattrs) then SkippedDataless(e.path)
    else if DestPath(cfg, e) in fs then SkippedExists(RelPath(cfg, e))
    else Copied(RelPath(cfg, e))
  }

  /** What processing one entry does: a record and a new tree, or a failed operation. */
  datatype Effect = Done(fs: set<Path>, record: Record) | Failed(fs: set<Path>, op: Op, at: Path)

  /**
   * Carry out the decision: a copy first creates the parent directories, then
   * copies the file to its destination; either step may fail. `fs::copy` opens
   * the source, then creates (and truncates) the destination, then moves the
   * bytes: when the read fails after that, a partial destination file is left.
   */
  function Process(cfg: Config, refused: set<Path>, fs: set<Path>, e: Entry): Effect
    requires IsPrefix(cfg.source, e.path)
  {
    var rec := Decision(cfg, fs, e);
    if !rec.Copied? then
      Done(fs, rec)
    else
      var dst := DestPath(cfg, e);
      var made := if dst == [] then DirsResult(fs, true) else MakeDirs(fs, refused, Parent(dst));
      if !made.ok then
        Failed(made.fs, CreateDirs, Parent(dst))
      else if RelPath(cfg, e) == [] || !e.openOk || dst in refused then
        Failed(made.fs, CopyFile, e.path)
      else if !e.readOk then
        Failed(made.fs + {dst}, CopyFile, e.path)
      else
        Done(made.fs + {dst}, rec)
  }

  /**
   * One iteration of the loop: count the entry, process it, and print a
   * progress line every hundredth entry when verbose. After a failure the run
   * has ended and nothing changes any more.
   */
  function Step(cfg: Config, refused: set<Path>, st: State, e: Entry): State
    requires IsPrefix(cfg.source, e.path)
  {
    if st.status.Aborted? then
      st
    else
      var processed := st.processed + 1;
      match Process(cfg, refused, st.fs, e)
      case Failed(fs, op, at) =>
        State(fs, st.log, processed, st.progress, Aborted(op, at))
      case Done(fs, rec) =>
        var progress := if cfg.verbose && processed % 100 == 0 then st.progress + [processed] else st.progress;
        State(fs, st.log + [rec], processed, progress, Running)
  }

  /** The state after the loop has gone through `entries`, starting from the tree `fs0`. */
  function Run(cfg: Config, refused: set<Path>, fs0: set<Path>, entries: seq<Entry>): State
    requires UnderSource(cfg.source, entries)
    decreases |entries|
  {
    if entries == [] then
      State(fs0, [], 0, [], Running)
    else
      Step(cfg, refused, Run(cfg, refused, fs0, entries[..|entries| - 1]), entries[|entries| - 1])
  }

  // ---------------------------------------------------------------------------
  // Properties of one entry

  /** Destination paths do not collide: two entries share one exactly when they share a source path. */
  lemma DestPathInjective(cfg: Config, e1: Entry, e2: Entry)
    requires IsPrefix(cfg.source, e1.path) && IsPrefix(cfg.source, e2.path)
    ensures DestPath(cfg, e1) == DestPath(cfg, e2) <==> e1.path == e2.path
  {
    var r1, r2 := RelPath(cfg, e1), RelPath(cfg, e2);
    if DestPath(cfg, e1) == DestPath(cfg, e2) {
      assert r1 == DestPath(cfg, e1)[|cfg.dest|..];
      assert r2 == DestPath(cfg, e2)[|cfg.dest|..];
    }
  }

  /**
   * What one entry does to the tree: skips leave it unchanged; a copy adds the
   * destination and all its ancestors; a failed attempt adds at most some of
   * those ancestors and, when the failure came after the destination file was
   * created (a failed read), the destination itself; nothing is ever removed.
   */
  lemma ProcessEffect(cfg: Config, refused: set<Path>, fs: set<Path>, e: Entry)
    requires IsPrefix(cfg.source, e.path)
    ensures var r, dst := Process(cfg, refused, fs, e), DestPath(cfg, e);
      && fs <= r.fs
      && (forall p :: p in r.fs && p !in fs ==> |p| <= |dst| && dst[..|p|] == p)
      && (r.Done? ==> r.record == Decision(cfg, fs, e))
      && (r.Done? && !r.record.Copied? ==> r.fs == fs)
      && (r.Done? && r.record.Copied? ==> dst !in fs && dst in r.fs && PrefixesIn(dst, r.fs))
      && (r.Failed? ==> Decision(cfg, fs, e).Copied?)
      && (r.Failed? ==> (dst in r.fs <==> r.op == CopyFile && RelPath(cfg, e) != [] && e.openOk && dst !in refused))
  {
    var dst := DestPath(cfg, e);
    if Decision(cfg, fs, e).Copied? && dst != [] {
      var made := MakeDirs(fs, refused, Parent(dst));
      assert forall k :: 0 <= k < |dst| ==> Parent(dst)[..k] == dst[..k];
      assert dst[..|dst|] == dst;
      forall p | p in made.fs && p !in fs
        ensures |p| <= |dst| && dst[..|p|] == p
      {
        assert Parent(dst)[..|p|] == p;
      }
    }
  }

  /**
   * A copy succeeds exactly when every missing ancestor of the destination can
   * be created, the destination itself is not refused and the source opens and reads.
   */
  lemma CopySucceedsIff(cfg: Config, refused: set<Path>, fs: set<Path>, e: Entry)
    requires IsPrefix(cfg.source, e.path)
    requires Decision(cfg, fs, e).Copied?
    ensures var dst := DestPath(cfg, e);
      Process(cfg, refused, fs, e).Done? <==>
        (forall k :: 1 <= k < |dst| ==> dst[..k] in fs || dst[..k] !in refused) &&
        RelPath(cfg, e) != [] && dst !in refused && e.openOk && e.readOk
  {
    var dst := DestPath(cfg, e);
    if dst != [] {
      assert forall k :: 1 <= k < |dst| ==> Parent(dst)[..k] == dst[..k];
    }
  }

  // ---------------------------------------------------------------------------
  // Properties of the whole loop

  /**
   * One record per entry: a run that was not aborted has written exactly one
   * record per entry and counted every entry (`processed == total`); an
   * aborted run has counted the failing entry but written no record for it.
   */
  lemma {:induction false} RunCounts(cfg: Config, refused: set<Path>, fs0: set<Path>, entries: seq<Entry>)
    requires UnderSource(cfg.source, entries)
    ensures var st := Run(cfg, refused, fs0, entries);
      && (st.status.Running? ==> |st.log| == st.processed == |entries|)
      && (st.status.Aborted? ==> st.processed == |st.log| + 1 <= |entries|)
    decreases |entries|
  {
    if entries != [] {
      RunCounts(cfg, refused, fs0, entries[..|entries| - 1]);
    }
  }

  /** The records of a prefix of the walk are the leading records of the whole run. */
  lemma {:induction false} RunLogExtends(cfg: Config, refused: set<Path>, fs0: set<Path>, entries: seq<Entry>, i: nat)
    requires UnderSource(cfg.source, entries) && i <= |entries|
    ensures var pre, st := Run(cfg, refused, fs0, entries[..i]), Run(cfg, refused, fs0, entries);
      && |pre.log| <= |st.log| && st.log[..|pre.log|] == pre.log
      && pre.fs <= st.fs
      && (pre.status.Aborted? ==> st == pre)
    decreases |entries|
  {
    if i < |entries| {
      var n := |entries|;
      assert entries[..n - 1][..i] == entries[..i];
      RunLogExtends(cfg, refused, fs0, entries[..n - 1], i);
      ProcessEffect(cfg, refused, Run(cfg, refused, fs0, entries[..n - 1]).fs, entries[n - 1]);
    } else {
      assert entries[..i] == entries;
    }
  }

  /**
   * The priority rule, record by record: entry `i` is logged as a dataless
   * skip exactly when it is dataless (whether or not its destination exists),
   * as an existing-destination skip exactly when it is not dataless and its
   * destination existed when it was reached, and as copied exactly when
   * neither holds.
   */
  lemma LogRecordAt(cfg: Config, refused: set<Path>, fs0: set<Path>, entries: seq<Entry>, i: nat)
    requires UnderSource(cfg.source, entries)
    requires i < |Run(cfg, refused, fs0, entries).log|
    ensures i < |entries|
    ensures var rec, e, before :=
        Run(cfg, refused, fs0, entries).log[i], entries[i], Run(cfg, refused, fs0, entries[..i]).fs;
      && (rec == SkippedDataless(e.path) <==> Dataless.Verdict(e.xattrs))
      && (rec == SkippedExists(RelPath(cfg, e)) <==> !Dataless.Verdict(e.xattrs) && DestPath(cfg, e) in before)
      && (rec == Copied(RelPath(cfg, e)) <==> !Dataless.Verdict(e.xattrs) && DestPath(cfg, e) !in before)
  {
    LogRecordIsDecision(cfg, refused, fs0, entries, i);
  }

  /** Record `i` is the decision for entry `i` on the tree as the loop found it. */
  lemma {:induction false} LogRecordIsDecision(cfg: Config, refused: set<Path>, fs0: set<Path>, entries: seq<Entry>, i: nat)
    requires UnderSource(cfg.source, entries)
    requires i < |Run(cfg, refused, fs0, entries).log|
    ensures i < |entries|
    ensures Run(cfg, refused, fs0, entries).log[i] == Decision(cfg, Run(cfg, refused, fs0, entries[..i]).fs, entries[i])
    decreases |entries|
  {
    var n := |entries|;
    var init := entries[..n - 1];
    var prev := Run(cfg, refused, fs0, init);
    StepGrows(cfg, refused, prev, entries[n - 1]);
    if i < |prev.log| {
      LogRecordIsDecision(cfg, refused, fs0, init, i);
      assert init[..i] == entries[..i];
      assert init[i] == entries[i];
    } else {
      RunCounts(cfg, refused, fs0, init);
      assert entries[..i] == init;
    }
  }

  /**
   * No overwrite: an entry whose destination already existed before the run
   * is never copied.
   */
  lemma NoOverwrite(cfg: Config, refused: set<Path>, fs0: set<Path>, entries: seq<Entry>, i: nat)
    requires UnderSource(cfg.source, entries)
    requires i < |Run(cfg, refused, fs0, entries).log|
    requires i < |entries| && DestPath(cfg, entries[i]) in fs0
    ensures !Run(cfg, refused, fs0, entries).log[i].Copied?
  {
    LogRecordAt(cfg, refused, fs0, entries, i);
    RunLogExtends(cfg, refused, fs0, entries, i);
    RunStartsFromFs0(cfg, refused, fs0, entries);
    RunLogExtends(cfg, refused, fs0, entries[..i], 0);
    assert entries[..i][..0] == entries[..0];
  }

  /** The loop starts from the tree it is given. */
  lemma RunStartsFromFs0(cfg: Config, refused: set<Path>, fs0: set<Path>, entries: seq<Entry>)
    requires UnderSource(cfg.source, entries)
    ensures Run(cfg, refused, fs0, entries[..0]).fs == fs0
  {
    assert entries[..0] == [];
  }

  /**
   * The copy branch creates every ancestor of the destination and the
   * destination itself, and they are all present at the end of the run.
   */
  lemma CopyCreatesAncestors(cfg: Config, refused: set<Path>, fs0: set<Path>, entries: seq<Entry>, i: nat)
    requires UnderSource(cfg.source, entries)
    requires i < |Run(cfg, refused, fs0, entries).log|
    requires Run(cfg, refused, fs0, entries).log[i].Copied?
    ensures i < |entries|
    ensures DestPath(cfg, entries[i]) in Run(cfg, refused, fs0, entries).fs
    ensures PrefixesIn(DestPath(cfg, entries[i]), Run(cfg, refused, fs0, entries).fs)
  {
    RunCounts(cfg, refused, fs0, entries);
    LogRecordAt(cfg, refused, fs0, entries, i);
    var pre := entries[..i + 1];
    assert pre[..i] == entries[..i];
    var before := Run(cfg, refused, fs0, entries[..i]);
    RunCounts(cfg, refused, fs0, entries[..i]);
    RunLogExtends(cfg, refused, fs0, entries, i + 1);
    RunLogExtends(cfg, refused, fs0, entries, i);
    ProcessEffect(cfg, refused, before.fs, entries[i]);
  }

  /**
   * Entry number `i`, which is `e`, accounts for path `p`: it was reached, it
   * was logged as copied or its failure ended the run, and `p` is its
   * destination or an ancestor of it.
   */
  ghost predicate AddedBy(cfg: Config, st: State, i: nat, e: Entry, p: Path)
    requires IsPrefix(cfg.source, e.path)
  {
    i < st.processed && (i < |st.log| ==> st.log[i].Copied?) &&
    |p| <= |DestPath(cfg, e)| && DestPath(cfg, e)[..|p|] == p
  }

  /**
   * Only the destination tree changes, and only through copies: every path
   * added by the run is the destination, or an ancestor of it, of an entry
   * logged as copied, or of the entry whose copy failed and ended the run.
   */
  lemma {:induction false} AddedPathsComeFromCopies(cfg: Config, refused: set<Path>, fs0: set<Path>, entries: seq<Entry>, p: Path)
    requires UnderSource(cfg.source, entries)
    requires p in Run(cfg, refused, fs0, entries).fs && p !in fs0
    ensures exists i :: 0 <= i < |entries| && AddedBy(cfg, Run(cfg, refused, fs0, entries), i, entries[i], p)
    decreases |entries|
  {
    if entries != [] {
      var n := |entries|;
      var prev := Run(cfg, refused, fs0, entries[..n - 1]);
      var st := Step(cfg, refused, prev, entries[n - 1]);
      assert st == Run(cfg, refused, fs0, entries);
      RunCounts(cfg, refused, fs0, entries[..n - 1]);
      StepGrows(cfg, refused, prev, entries[n - 1]);
      if p in prev.fs {
        AddedPathsComeFromCopies(cfg, refused, fs0, entries[..n - 1], p);
        var i :| 0 <= i < n - 1 && AddedBy(cfg, prev, i, entries[..n - 1][i], p);
        assert entries[..n - 1][i] == entries[i];
        assert AddedBy(cfg, st, i, entries[i], p);
      } else {
        assert AddedBy(cfg, st, n - 1, entries[n - 1], p);
      }
    }
  }

  /**
   * One step keeps what came before: the records so far stay, the count does
   * not drop, and a path it adds is a prefix of the entry's destination, added
   * while the entry was counted and either logged as copied or failing.
   */
  lemma StepGrows(cfg: Config, refused: set<Path>, st: State, e: Entry)
    requires IsPrefix(cfg.source, e.path)
    ensures var st' := Step(cfg, refused, st, e);
      && st.fs <= st'.fs && st.processed <= st'.processed
      && |st.log| <= |st'.log| && st'.log[..|st.log|] == st.log
      && (st.status.Aborted? ==> st' == st)
      && (|st'.log| != |st.log| ==> |st'.log| == |st.log| + 1 && st'.log[|st.log|] == Decision(cfg, st.fs, e))
      && (forall p :: p in st'.fs && p !in st.fs ==>
            st'.processed == st.processed + 1 &&
            |p| <= |DestPath(cfg, e)| && DestPath(cfg, e)[..|p|] == p &&
            (|st'.log| == |st.log| + 1 ==> st'.log[|st.log|].Copied?) &&
            (st'.log == st.log || |st'.log| == |st.log| + 1))
  {
    ProcessEffect(cfg, refused, st.fs, e);
  }

  /** A run that did not abort leaves every non-dataless entry's destination present. */
  lemma CompletedRunCoversEntries(cfg: Config, refused: set<Path>, fs0: set<Path>, entries: seq<Entry>)
    requires UnderSource(cfg.source, entries)
    requires Run(cfg, refused, fs0, entries).status.Running?
    ensures forall i :: 0 <= i < |entries| ==>
      Dataless.Verdict(entries[i].xattrs) || DestPath(cfg, entries[i]) in Run(cfg, refused, fs0, entries).fs
  {
    var st := Run(cfg, refused, fs0, entries);
    RunCounts(cfg, refused, fs0, entries);
    forall i | 0 <= i < |entries|
      ensures Dataless.Verdict(entries[i].xattrs) || DestPath(cfg, entries[i]) in st.fs
    {
      LogRecordAt(cfg, refused, fs0, entries, i);
      RunLogExtends(cfg, refused, fs0, entries, i);
      if st.log[i].Copied? {
        CopyCreatesAncestors(cfg, refused, fs0, entries, i);
      }
    }
  }

  /**
   * A run over a tree that already holds the destination of every
   * non-dataless entry copies nothing, creates nothing and completes.
   */
  lemma {:induction false} CoveredRunIsQuiet(cfg: Config, refused: set<Path>, fs: set<Path>, entries: seq<Entry>)
    requires UnderSource(cfg.source, entries)
    requires forall i :: 0 <= i < |entries| ==> Dataless.Verdict(entries[i].xattrs) || DestPath(cfg, entries[i]) in fs
    ensures var st := Run(cfg, refused, fs, entries);
      && st.fs == fs && st.status.Running? && |st.log| == |entries|
      && forall i :: 0 <= i < |st.log| ==> !st.log[i].Copied?
    decreases |entries|
  {
    if entries != [] {
      var n := |entries|;
      CoveredRunIsQuiet(cfg, refused, fs, entries[..n - 1]);
      RunCounts(cfg, refused, fs, entries[..n - 1]);
    }
  }

  /**
   * Idempotence: running the loop again over the same entries (the same
   * verdicts) on the tree a completed run left behind copies nothing, leaves
   * the tree unchanged and completes, whatever the system would refuse.
   */
  lemma SecondRunIsQuiet(cfg: Config, refused: set<Path>, refused2: set<Path>, fs0: set<Path>, entries: seq<Entry>)
    requires UnderSource(cfg.source, entries)
    requires Run(cfg, refused, fs0, entries).status.Running?
    ensures var fs1 := Run(cfg, refused, fs0, entries).fs;
      var st2 := Run(cfg, refused2, fs1, entries);
      && st2.fs == fs1 && st2.status.Running? && |st2.log| == |entries|
      && forall i :: 0 <= i < |st2.log| ==> !st2.log[i].Copied?
  {
    CompletedRunCoversEntries(cfg, refused, fs0, entries);
    CoveredRunIsQuiet(cfg, refused2, Run(cfg, refused, fs0, entries).fs, entries);
  }

  /**
   * Resuming after a failed read: when a run ended because the source could
   * not be read after its destination file was created, running again over
   * the same entries reaches that entry and logs it as an existing
   * destination. The partial file is kept, not replaced.
   */
  lemma PartialCopySkippedOnRerun(cfg: Config, refused: set<Path>, refused2: set<Path>, fs0: set<Path>, entries: seq<Entry>)
    requires UnderSource(cfg.source, entries)
    requires Run(cfg, refused, fs0, entries).status.Aborted?
    requires Run(cfg, refused, fs0, entries).status.op == CopyFile
    requires |Run(cfg, refused, fs0, entries).log| < |entries|
    requires var e := entries[|Run(cfg, refused, fs0, entries).log|];
      |cfg.source| < |e.path| && e.openOk && DestPath(cfg, e) !in refused
    ensures var st := Run(cfg, refused, fs0, entries);
      var j, st2 := |st.log|, Run(cfg, refused2, st.fs, entries);
      j < |st2.log| && st2.log[j] == SkippedExists(RelPath(cfg, entries[j]))
  {
    var st := Run(cfg, refused, fs0, entries);
    ReadFailureLeavesDest(cfg, refused, fs0, entries);
    RerunSkipsPresent(cfg, refused2, st.fs, entries, |st.log|);
  }

  /**
   * A run over a tree that holds the destination of every non-dataless entry
   * before `j`, and of entry `j`, which is not dataless, reaches entry `j`
   * and logs it as an existing destination.
   */
  lemma RerunSkipsPresent(cfg: Config, refused: set<Path>, fs: set<Path>, entries: seq<Entry>, j: nat)
    requires UnderSource(cfg.source, entries)
    requires j < |entries|
    requires forall i :: 0 <= i < j ==> Dataless.Verdict(entries[i].xattrs) || DestPath(cfg, entries[i]) in fs
    requires !Dataless.Verdict(entries[j].xattrs) && DestPath(cfg, entries[j]) in fs
    ensures j < |Run(cfg, refused, fs, entries).log|
    ensures Run(cfg, refused, fs, entries).log[j] == SkippedExists(RelPath(cfg, entries[j]))
  {
    var e := entries[j];
    var init := entries[..j];
    forall i | 0 <= i < |init|
      ensures Dataless.Verdict(init[i].xattrs) || DestPath(cfg, init[i]) in fs
    {
      assert init[i] == entries[i];
    }
    CoveredRunIsQuiet(cfg, refused, fs, init);
    var prev := Run(cfg, refused, fs, init);
    var next := Step(cfg, refused, prev, e);
    assert Decision(cfg, prev.fs, e) == SkippedExists(RelPath(cfg, e));
    assert Process(cfg, refused, prev.fs, e) == Done(prev.fs, SkippedExists(RelPath(cfg, e)));
    assert next.log == prev.log + [SkippedExists(RelPath(cfg, e))];
    assert entries[..j + 1][..j] == init;
    assert Run(cfg, refused, fs, entries[..j + 1]) == next;
    RunLogExtends(cfg, refused, fs, entries, j + 1);
  }

  /**
   * After a run that ended on a failed read, the tree holds the failing
   * entry's (partial) destination, that entry is not dataless, and every
   * earlier non-dataless entry has its destination in the tree.
   */
  lemma ReadFailureLeavesDest(cfg: Config, refused: set<Path>, fs0: set<Path>, entries: seq<Entry>)
    requires UnderSource(cfg.source, entries)
    requires Run(cfg, refused, fs0, entries).status.Aborted?
    requires Run(cfg, refused, fs0, entries).status.op == CopyFile
    requires |Run(cfg, refused, fs0, entries).log| < |entries|
    requires var e := entries[|Run(cfg, refused, fs0, entries).log|];
      |cfg.source| < |e.path| && e.openOk && DestPath(cfg, e) !in refused
    ensures var st := Run(cfg, refused, fs0, entries);
      var j := |st.log|;
      && DestPath(cfg, entries[j]) in st.fs && !Dataless.Verdict(entries[j].xattrs)
      && forall i :: 0 <= i < j ==> Dataless.Verdict(entries[i].xattrs) || DestPath(cfg, entries[i]) in st.fs
  {
    var st := Run(cfg, refused, fs0, entries);
    var j := |st.log|;
    var e := entries[j];
    var init := entries[..j];
    var prev := Run(cfg, refused, fs0, init);
    RunCounts(cfg, refused, fs0, entries);
    RunCounts(cfg, refused, fs0, init);
    RunLogExtends(cfg, refused, fs0, entries, j);
    RunLogExtends(cfg, refused, fs0, entries, j + 1);
    assert entries[..j + 1][..j] == init;
    assert prev.status.Running?;
    assert Run(cfg, refused, fs0, entries[..j + 1]) == Step(cfg, refused, prev, e);
    ProcessEffect(cfg, refused, prev.fs, e);
    CompletedRunCoversEntries(cfg, refused, fs0, init);
    forall i | 0 <= i < j
      ensures Dataless.Verdict(entries[i].xattrs) || DestPath(cfg, entries[i]) in st.fs
    {
      assert init[i] == entries[i];
    }
  }

  /**
   * Progress lines: printed only in verbose mode, at every hundredth entry
   * that was processed to completion, in increasing order.
   */
  lemma {:induction false} ProgressLines(cfg: Config, refused: set<Path>, fs0: set<Path>, entries: seq<Entry>)
    requires UnderSource(cfg.source, entries)
    ensures var st := Run(cfg, refused, fs0, entries);
      && (forall k :: k in st.progress <==> cfg.verbose && 1 <= k <= |st.log| && k % 100 == 0)
      && (forall a, b :: 0 <= a < b < |st.progress| ==> st.progress[a] < st.progress[b])
      && (forall a :: 0 <= a < |st.progress| ==> st.progress[a] <= |st.log|)
    decreases |entries|
  {
    if entries != [] {
      ProgressLines(cfg, refused, fs0, entries[..|entries| - 1]);
      RunCounts(cfg, refused, fs0, entries[..|entries| - 1]);
    }
  }

  // ---------------------------------------------------------------------------
  // The loop itself

  /**
   * The body of the loop for one entry, up to the log write: `Process`
   * computed with the attribute loop `Dataless.IsDataless` in place of the
   * verdict function. A failure is returned rather than raised.
   */
  method ProcessEntry(cfg: Config, refused: set<Path>, fs: set<Path>, entry: Entry) returns (effect: Effect)
    requires IsPrefix(cfg.source, entry.path)
    ensures effect == Process(cfg, refused, fs, entry)
  {
    var rel := entry.path[|cfg.source|..];
    var dst := cfg.dest + rel;
    var dataless := Dataless.IsDataless(entry.xattrs);
    if dataless {
      return Done(fs, SkippedDataless(entry.path));
    } else if dst in fs {
      return Done(fs, SkippedExists(rel));
    }
    var made := DirsResult(fs, true);
    if dst != [] {
      var parent := dst[..|dst| - 1];
      made := MakeDirs(fs, refused, parent);
      if !made.ok {
        return Failed(made.fs, CreateDirs, parent);
      }
    }
    if rel == [] || !entry.openOk || dst in refused {
      return Failed(made.fs, CopyFile, entry.path);
    } else if !entry.readOk {
      return Failed(made.fs + {dst}, CopyFile, entry.path);
    }
    return Done(made.fs + {dst}, Copied(rel));
  }

  /**
   * The loop of `main` over the walked entries. A failed directory creation
   * or copy ends the run at once (a panic in `main`).
   */
  method MirrorTree(cfg: Config, refused: set<Path>, fs0: set<Path>, entries: seq<Entry>)
    returns (fs: set<Path>, log: seq<Record>, processed: nat, progress: seq<nat>, status: Status)
    requires UnderSource(cfg.source, entries)
    ensures State(fs, log, processed, progress, status) == Run(cfg, refused, fs0, entries)
  {
    var total := |entries|;
    fs, log, processed, progress, status := fs0, [], 0, [], Running;
    var i := 0;
    while i < total
      invariant 0 <= i <= total
      invariant status.Running?
      invariant State(fs, log, processed, progress, status) == Run(cfg, refused, fs0, entries[..i])
    {
      var entry := entries[i];
      assert entries[..i + 1][..i] == entries[..i];
      processed := processed + 1;
      var effect := ProcessEntry(cfg, refused, fs, entry);
      fs := effect.fs;
      if effect.Failed? {
        status := Aborted(effect.op, effect.at);
        RunLogExtends(cfg, refused, fs0, entries, i + 1);
        return;
      }
      log := log + [effect.record];
      if cfg.verbose && processed % 100 == 0 {
        progress := progress + [processed];
      }
      i := i + 1;
    }
    assert entries[..total] == entries;
  }
}
