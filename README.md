# ghostsync mirror engine — a Dafny model

ghostsync copies a source directory tree into a destination tree. It skips
files that are "dataless" — cloud placeholders whose bytes are not on local
storage — and files whose destination already exists, and it logs one
decision line per file. This project models the two parts of `src/main.rs`
that make decisions, and proves properties of them:

- **The dataless classifier** (`is_dataless`), module `Dataless` in
  `dataless.dfy`. The open-and-list step is reduced to its result:
  `Some(names)` when the attribute names could be listed, `None` when the file
  could not be opened or its attributes could not be listed. The per-name test
  is `IsPlaceholderName`. A name passes when it contains `com.apple.` and, in
  the same name, `dataless`, `cloud` or `fileprovider`. Substring search is
  `Contains`, proved equal to "the pattern occurs at some offset". The
  attribute loop is the method `IsDataless`, proved equal to the left fold
  `ScanNames`, and the lemmas show that this fold is an existential.
- **The mirror loop** (the `for entry in entries` loop of `main`), module
  `Mirror` in `mirror.dfy`. A path is a sequence of components. The walk is a
  given sequence of `Entry` values, all under the source root. The destination
  tree is the set of paths that exist there. The log is a sequence of
  `Record`s. The progress output is the sequence of `processed` counts at which
  a progress line is printed. `Run` gives the state after the loop has gone
  through a prefix of the walk, one `Step` per entry. The method `MirrorTree` is
  the loop itself, proved to produce exactly `Run`'s state. Its body for one
  entry is the method `ProcessEntry`.
  - `fs::create_dir_all` is `MakeDirs`: it creates the missing prefixes of the
    parent directory, shortest first.
  - `fs::copy` adds the destination path. It opens the source, then creates
    the destination file, then copies the bytes. A read that fails after the
    destination was created leaves a partial destination file in the tree.
  - Both can fail. The paths the operating system refuses to create are an
    input (`refused`). Whether each source file opens (`Entry.openOk`) and
    reads to the end (`Entry.readOk`) are inputs too.
  - An entry equal to the source root (the walk yields it when the root is a
    regular file) has an empty relative path; `main` then copies onto `dest/`,
    which names a directory and cannot be created as a file, so the copy
    fails.
  - A failure ends the run. In `main` this is a panic. In the model the
    status becomes `Aborted` with the operation and path that failed. The
    entry is counted, but no record is written for it.
- `scenarios.dfy` (module `Scenarios`) works through concrete runs.

Facts about the code that the model reflects:
- `main` keeps only `processed` and `total`. It prints no per-outcome summary.
- `is_dataless` has only the attribute-name test.
- The attribute listing goes to standard output, never to the log. It is
  printed for every file whose attributes could be listed, verbose or not.

## Model

| member | source | states |
|---|---|---|
| `Dataless.Contains` | src/main.rs:17-18 | `str::contains`: the result is true exactly when the pattern occurs at some offset of the name |
| `Dataless.ScanNamesIsExists` | src/main.rs:12-22 | the attribute loop, as a fold from flag `found`, yields `found` or-ed with "some single name passes the per-name test" |
| `Dataless.ScanNamesMonotone` | src/main.rs:12-21 | once `found` is set, no later name clears it |
| `Dataless.VerdictIsSomePlaceholderName` | src/main.rs:9-26 | verdict true exactly when the listing succeeded and one single name holds both `com.apple.` and a keyword; a failed open or listing gives false |
| `Dataless.VerdictOrderIndependent` | src/main.rs:14-21 | two listings that hold the same names, in any order and with any repetition, give the same verdict |
| `Dataless.MarkersOnDifferentNamesAreResident` | src/main.rs:17-18 | the namespace on one name (`com.apple.quarantine`) and a keyword on another (`icloud`) do not make a file dataless |
| `Dataless.FileProviderNameIsDataless` | src/main.rs:17-19 | a `com.apple.fileprovider…` attribute alone makes the file dataless |
| `Dataless.IsPlaceholderName` | src/main.rs:17-18 | defines the per-name test: the name contains `com.apple.` and one of `dataless`, `cloud`, `fileprovider` |
| `Dataless.ScanNames` | src/main.rs:12-21 | defines the attribute loop as a left fold that or-s the flag with each name's test, in listing order |
| `Dataless.Verdict` | src/main.rs:9-26 | defines the classifier's answer: false when the open or listing failed, otherwise the fold from `false` |
| `Dataless.IsDataless` | src/main.rs:9-26 | the loop over the names returns exactly the verdict, and false when the query failed |
| `Mirror.RelPath` | src/main.rs:76 | stripping the source root gives the relative path, and joining it back onto the root gives the entry's path |
| `Mirror.DestPath` | src/main.rs:77 | defines the destination as the destination root followed by the relative path |
| `Mirror.Parent` | src/main.rs:89 | defines `Path::parent` of a non-empty path: all components but the last |
| `Mirror.Decision` | src/main.rs:79-97 | defines the priority order: dataless skip, then existing-destination skip, then copy |
| `Mirror.Process` | src/main.rs:79-97 | defines one entry's effect: the decision, and on the copy branch the directory creation and the copy with their failures, including the partial file a failed read leaves; an entry equal to the source root (empty relative path) fails its copy, since `main` would copy onto `dest/` |
| `Mirror.Step` | src/main.rs:73-103 | defines one iteration: count the entry, process it, append its record, add a progress mark every hundredth entry when verbose; after a failure nothing changes |
| `Mirror.Run` | src/main.rs:70-103 | defines the state after the loop has gone through the entries, starting from an empty log, zero count and the given tree |
| `Mirror.DestPathInjective` | src/main.rs:76-77 | two entries share a destination path exactly when they share a source path |
| `Mirror.MakeDirs` | src/main.rs:89-91 | the tree only grows, and only by prefixes of the directory; success holds exactly when every missing prefix can be created; on success every prefix exists |
| `Mirror.ProcessEffect` | src/main.rs:79-97 | a skip leaves the tree unchanged; a copy happens only when the destination was absent, and then the destination and all its ancestors exist; the tree gains only prefixes of the destination; a failure occurs only on the copy branch, and leaves the destination file exactly when the entry lies strictly below the source root, the source opened, the destination could be created and the read then failed |
| `Mirror.CopySucceedsIff` | src/main.rs:89-93 | the copy branch succeeds exactly when every missing ancestor can be created, the entry lies strictly below the source root, the destination is not refused and the source opens and reads to the end |
| `Mirror.RunCounts` | src/main.rs:70-74 | a run that completes writes exactly one record per entry and ends with `processed == total`; an aborted run has counted the failing entry and written one record fewer |
| `Mirror.LogRecordAt` | src/main.rs:79-97 | the priority rule, record by record: `SKIPPED (dataless)` exactly when the entry is dataless (whether or not its destination exists), `SKIPPED (exists)` exactly when it is not dataless and its destination existed, `COPIED` exactly when neither holds |
| `Mirror.NoOverwrite` | src/main.rs:83-93 | an entry whose destination existed before the run is never copied |
| `Mirror.CopyCreatesAncestors` | src/main.rs:89-93 | after a copy, the destination and every one of its ancestors are in the tree at the end of the run |
| `Mirror.AddedPathsComeFromCopies` | src/main.rs:87-93 | every path the run adds to the tree is the destination, or an ancestor of it, of an entry logged `COPIED` or of the entry whose failure ended the run |
| `Mirror.CompletedRunCoversEntries` | src/main.rs:83-93 | after a completed run, every entry that is not dataless has its destination in the tree |
| `Mirror.CoveredRunIsQuiet` | src/main.rs:83-86 | a run over a tree that already holds every non-dataless destination completes, copies nothing and leaves the tree unchanged |
| `Mirror.SecondRunIsQuiet` | src/main.rs:73-103 | idempotence: a second run over the same entries, on the tree the first completed run left, completes without a `COPIED` record and leaves the tree unchanged |
| `Mirror.ReadFailureLeavesDest` | src/main.rs:83-93 | after a run ended by a failed read, the failing entry's partial destination is in the tree, and every earlier non-dataless entry's destination is too |
| `Mirror.RerunSkipsPresent` | src/main.rs:79-86 | a run over a tree holding the destinations of all earlier non-dataless entries and of entry `j` logs `SKIPPED (exists)` for entry `j` |
| `Mirror.PartialCopySkippedOnRerun` | src/main.rs:83-93 | resuming after a failed read: the second run reaches the failing entry and logs it `SKIPPED (exists)`, keeping the partial file |
| `Mirror.ProgressLines` | src/main.rs:99-102 | a progress line is printed at count `k` exactly when verbose, `k % 100 == 0` and `k` entries have been processed to completion; the lines are printed in increasing order |
| `Mirror.StepGrows` | src/main.rs:73-103 | one iteration keeps the earlier records, never lowers the count, writes at most one record (the decision for the entry on the tree as found), and adds only prefixes of the entry's destination |
| `Mirror.LogRecordIsDecision` | src/main.rs:79-97 | record `i` of the log is the decision for entry `i` on the tree as the loop found it |
| `Mirror.ProcessEntry` | src/main.rs:75-97 | the loop body for one entry (classify, check the destination, create the parent directories, copy) produces exactly the effect `Process` specifies |
| `Mirror.MirrorTree` | src/main.rs:70-103 | the loop's final tree, log, counter, progress lines and status are exactly those of `Run` |
| `Scenarios.ExistingAndDataless` | src/main.rs:79-86 | resident `a.txt` with `a.txt` already at the destination, and a placeholder `b.txt`: logs `SKIPPED (exists)` then `SKIPPED (dataless)`, and the tree is unchanged |
| `Scenarios.EmptySource` | src/main.rs:64-73 | an empty walk logs nothing, counts nothing and leaves the tree unchanged |
| `Scenarios.SourceRootFileAborts` | src/main.rs:76-93 | a source root that is a regular file, with the destination missing: the one entry is counted and the run ends with the copy failing |
| `Scenarios.NestedCopyCreatesDirectories` | src/main.rs:87-97 | a nested file under missing directories is copied, and each missing directory is created |

## Left out

- Command-line parsing with `clap` (src/main.rs:29-46, 54-59). The run's arguments are a `Config` value.
- The backup of an earlier default log under a timestamped name (src/main.rs:48-52). It is a file rename that depends on the wall clock.
- Creating the log file and writing to it (src/main.rs:61-62, 81, 85, 95). The log is the sequence of records, and every write is assumed to succeed. The model does not cover the panic on a failed log write.
- The directory walk (src/main.rs:64-68). It comes from an external library. Its output is a given sequence of entries, all under the source root. That assumption also covers the `unwrap` of `strip_prefix` at line 76.
- Opening the file, listing its attributes and the lossy conversion of names to text (src/main.rs:10-15). They are operating-system calls. Only their result is modelled, as an `Option` of the names.
- The percentage in the progress line (src/main.rs:100). It is floating point. The model keeps the count at which each line is printed.
- Console output that decides nothing: the attribute dump (src/main.rs:13, 16), the `COPYING:` line (88), the verbose echo of each log line (82, 86, 96) and the final message (105).
- Copied bytes. A copy is modelled as the destination path coming into existence. Byte equality with the source is not modelled.
- Mirror.MakeDirs: the tree does not tell files from directories. `create_dir_all` fails when a prefix exists as a regular file, but the model treats an existing prefix as a directory.
- Mirror.Decision: when the source root is a regular file and the destination exists as a regular file, `dest/` does not exist for `main`, so it copies (and fails) where the model, which does not tell files from directories, logs `SKIPPED (exists)`.
- Mirror.Process: the same case as for `Mirror.Decision`: a root entry whose destination exists as a regular file is modelled as skipped where `main` fails its copy.
- Mirror.ProcessEntry: computes `Mirror.Process`, so it shares the same gap for a source root that is a regular file with a regular file at the destination.
- Mirror.SecondRunIsQuiet: it assumes that the second run walks the same entries. That holds only when the source tree is unchanged between the runs and the destination lies outside the source root. A destination inside the source (for example source `s` and destination `s/b`) adds the copies to the second walk.
- Mirror.Step: `processed` is an `i32` in `main` (src/main.rs:71, 74, 99). Past 2^31 - 1 entries the increment overflows, which panics in a debug build and wraps in a release build. The model's counter is an unbounded `nat`.
- Symbolic links: `Path::exists` follows links, and the model does not.
- Mirror.Process: path comparison is exact. A destination volume that ignores case or Unicode normalisation (the default on macOS) makes `dst_path.exists()` true for a name that differs only in case or normal form. The model does not capture that, so such an entry would be modelled as copied where `main` logs `SKIPPED (exists)`.
- Mirror.Process: a partial destination left by a failed read is a path in the tree like any other. Its truncated content is not distinguished from a complete copy. `Mirror.PartialCopySkippedOnRerun` shows the consequence: the next run keeps it.
