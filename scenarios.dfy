/** Concrete runs of the mirror loop on small trees. */
module Scenarios {
  import opened Wrappers
  import Dataless
  import opened Mirror

  /**
   * Source holds a resident `a.txt` and a File Provider placeholder `b.txt`;
   * the destination already holds `a.txt`. The first is skipped as existing,
   * the second as dataless, and the destination tree is left as it was.
   */
  lemma ExistingAndDataless(refused: set<Path>)
    ensures var cfg := Config(["src"], ["dst"], false);
      var a := Entry(["src", "a.txt"], Some([]), true, true);
      var b := Entry(["src", "b.txt"], Some(["com.apple.fileprovider.fpfs#P"]), true, true);
      var fs0 := {["dst"], ["dst", "a.txt"]};
      Run(cfg, refused, fs0, [a, b]) == State(fs0, [SkippedExists(["a.txt"]), SkippedDataless(["src", "b.txt"])], 2, [], Running)
  {
    var cfg := Config(["src"], ["dst"], false);
    var a := Entry(["src", "a.txt"], Some([]), true, true);
    var b := Entry(["src", "b.txt"], Some(["com.apple.fileprovider.fpfs#P"]), true, true);
    Dataless.FileProviderNameIsDataless();
    assert [a, b][..1] == [a];
    assert [a][..0] == [];
    var fs0 := {["dst"], ["dst", "a.txt"]};
    assert DestPath(cfg, a) == ["dst", "a.txt"];
    assert !Dataless.Verdict(a.xattrs);
    assert Run(cfg, refused, fs0, [a]) == State(fs0, [SkippedExists(["a.txt"])], 1, [], Running);
    assert Dataless.Verdict(b.xattrs);
  }

  /** An empty walk completes with nothing logged, nothing counted and the tree unchanged. */
  lemma EmptySource(cfg: Config, refused: set<Path>, fs0: set<Path>)
    ensures Run(cfg, refused, fs0, []) == State(fs0, [], 0, [], Running)
  {
  }

  /**
   * The source root is itself a regular file, so the walk yields only the
   * root, whose relative path is empty. With the destination missing, the
   * copy onto `dst/` fails and the run ends on that entry.
   */
  lemma SourceRootFileAborts(refused: set<Path>)
    ensures var cfg := Config(["f.txt"], ["dst"], false);
      var e := Entry(["f.txt"], Some([]), true, true);
      Run(cfg, refused, {}, [e]) == State({}, [], 1, [], Aborted(CopyFile, ["f.txt"]))
  {
    var cfg := Config(["f.txt"], ["dst"], false);
    var e := Entry(["f.txt"], Some([]), true, true);
    assert RelPath(cfg, e) == [];
  }

  /**
   * A nested file whose destination directories are all missing is copied,
   * and every missing directory on the way is created.
   */
  lemma NestedCopyCreatesDirectories()
    ensures var cfg := Config(["src"], ["dst"], false);
      var e := Entry(["src", "x", "y", "f"], Some([]), true, true);
      Run(cfg, {}, {}, [e]) ==
        State({["dst"], ["dst", "x"], ["dst", "x", "y"], ["dst", "x", "y", "f"]}, [Copied(["x", "y", "f"])], 1, [], Running)
  {
    var cfg := Config(["src"], ["dst"], false);
    var e := Entry(["src", "x", "y", "f"], Some([]), true, true);
    assert [e][..0] == [];
    var dst := DestPath(cfg, e);
    assert dst == ["dst", "x", "y", "f"];
    assert Parent(dst) == ["dst", "x", "y"];
    assert Parent(Parent(dst)) == ["dst", "x"];
    assert Parent(Parent(Parent(dst))) == ["dst"];
    assert Parent(Parent(Parent(Parent(dst)))) == [];
  }
}
