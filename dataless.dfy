/**
 * The dataless classifier of src/main.rs (`is_dataless`).
 *
 * The operating-system side of the classifier (opening the file, listing its
 * extended attributes, the lossy conversion of each name to text) is reduced
 * to its result: `Some(names)` when the listing succeeded, `None` when either
 * the open or the listing failed.
 */
module Dataless {
  import opened Wrappers

  /** `sub` occurs in `s` starting at offset `i`. */
  ghost predicate OccursAt(s: string, sub: string, i: int) {
    0 <= i && i + |sub| <= |s| && s[i..i + |sub|] == sub
  }

  /** Reference meaning of `str::contains` with a string pattern: some offset holds `sub`. */
  ghost predicate HasSubstring(s: string, sub: string) {
    exists i :: OccursAt(s, sub, i)
  }

  /** Substring search, trying each offset from the left. */
  function Contains(s: string, sub: string): (r: bool)
    ensures r <==> HasSubstring(s, sub)
    decreases |s|
  {
    if |sub| > |s| then
      false
    else if s[..|sub|] == sub then
      assert OccursAt(s, sub, 0);
      true
    else
      var r := Contains(s[1..], sub);
      assert forall i :: 1 <= i ==> (OccursAt(s, sub, i) <==> OccursAt(s[1..], sub, i - 1)) by {
        forall i | 1 <= i
          ensures OccursAt(s, sub, i) <==> OccursAt(s[1..], sub, i - 1)
        {
          if i + |sub| <= |s| {
            assert s[1..][i - 1..i - 1 + |sub|] == s[i..i + |sub|];
          }
        }
      }
      assert r ==> HasSubstring(s, sub) by {
        if r {
          var j :| OccursAt(s[1..], sub, j);
          assert OccursAt(s, sub, j + 1);
        }
      }
      assert HasSubstring(s, sub) ==> r by {
        if HasSubstring(s, sub) {
          var j :| OccursAt(s, sub, j);
          assert j != 0;
          assert OccursAt(s[1..], sub, j - 1);
        }
      }
      r
  }

  /**
   * The per-name test: the name carries the `com.apple.` namespace marker and,
   * in the same name, one of the placeholder keywords.
   */
  predicate IsPlaceholderName(key: string) {
    Contains(key, "com.apple.") &&
    (Contains(key, "dataless") || Contains(key, "cloud") || Contains(key, "fileprovider"))
  }

  /** Some single name of `names` passes the per-name test. */
  ghost predicate SomePlaceholderName(names: seq<string>) {
    exists i :: 0 <= i < |names| && IsPlaceholderName(names[i])
  }

  /** The attribute loop as a left fold: the flag is or-ed with each name's test, in order. */
  function ScanNames(found: bool, names: seq<string>): bool
    decreases |names|
  {
    if names == [] then found
    else ScanNames(found || IsPlaceholderName(names[0]), names[1..])
  }

  /** The classifier's verdict; a failed open or listing yields `false` (treated as resident). */
  function Verdict(xattrs: Option<seq<string>>): bool {
    match xattrs
    case None => false
    case Some(names) => ScanNames(false, names)
  }

  /** The fold is an existential: the result is the start flag or some name passing the test. */
  lemma {:induction false} ScanNamesIsExists(found: bool, names: seq<string>)
    ensures ScanNames(found, names) <==> found || SomePlaceholderName(names)
    decreases |names|
  {
    if names != [] {
      ScanNamesIsExists(found || IsPlaceholderName(names[0]), names[1..]);
      if SomePlaceholderName(names) && !IsPlaceholderName(names[0]) {
        var i :| 0 <= i < |names| && IsPlaceholderName(names[i]);
        assert names[1..][i - 1] == names[i];
      }
      if SomePlaceholderName(names[1..]) {
        var i :| 0 <= i < |names[1..]| && IsPlaceholderName(names[1..][i]);
        assert names[i + 1] == names[1..][i];
      }
    }
  }

  /** The flag only ever goes from false to true: once set, no later name clears it. */
  lemma ScanNamesMonotone(names: seq<string>)
    ensures ScanNames(true, names)
  {
    ScanNamesIsExists(true, names);
  }

  /**
   * The verdict is true exactly when the listing succeeded and one single
   * attribute name passes the per-name test.
   */
  lemma VerdictIsSomePlaceholderName(xattrs: Option<seq<string>>)
    ensures Verdict(xattrs) <==> xattrs.Some? && SomePlaceholderName(xattrs.value)
  {
    if xattrs.Some? {
      ScanNamesIsExists(false, xattrs.value);
    }
  }

  /**
   * The verdict depends only on which names are listed: neither their order
   * nor how often each is repeated matters.
   */
  lemma VerdictOrderIndependent(a: seq<string>, b: seq<string>)
    requires forall x :: x in a <==> x in b
    ensures Verdict(Some(a)) == Verdict(Some(b))
  {
    VerdictIsSomePlaceholderName(Some(a));
    VerdictIsSomePlaceholderName(Some(b));
    if SomePlaceholderName(a) {
      var i :| 0 <= i < |a| && IsPlaceholderName(a[i]);
      assert a[i] in b;
      var j :| 0 <= j < |b| && b[j] == a[i];
    }
    if SomePlaceholderName(b) {
      var j :| 0 <= j < |b| && IsPlaceholderName(b[j]);
      assert b[j] in a;
      var i :| 0 <= i < |a| && a[i] == b[j];
    }
  }

  /** A pattern holding a character that `s` lacks does not occur in `s`. */
  lemma MissingCharNotContained(s: string, sub: string, c: char)
    requires c in sub && c !in s
    ensures !Contains(s, sub)
  {
  }

  /** A name without the letters `d` and `f` holds none of the placeholder keywords. */
  lemma NoKeywordLetters(key: string)
    requires 'd' !in key && 'f' !in key
    ensures !IsPlaceholderName(key)
  {
    MissingCharNotContained(key, "dataless", 'd');
    MissingCharNotContained(key, "cloud", 'd');
    MissingCharNotContained(key, "fileprovider", 'f');
  }

  /**
   * Both conditions must hold on the same name: the namespace marker on one
   * attribute and a keyword on another do not make a file dataless.
   */
  lemma MarkersOnDifferentNamesAreResident()
    ensures !Verdict(Some(["com.apple.quarantine", "icloud"]))
  {
    NoKeywordLetters("com.apple.quarantine");
    assert !IsPlaceholderName("icloud");
    VerdictIsSomePlaceholderName(Some(["com.apple.quarantine", "icloud"]));
  }

  /** A File Provider attribute name is a placeholder signature on its own. */
  lemma FileProviderNameIsDataless()
    ensures Verdict(Some(["com.apple.fileprovider.fpfs#P"]))
  {
    var key := "com.apple.fileprovider.fpfs#P";
    assert OccursAt(key, "com.apple.", 0);
    assert OccursAt(key, "fileprovider", 10);
    assert IsPlaceholderName(key);
    VerdictIsSomePlaceholderName(Some([key]));
  }

  /**
   * The loop of `is_dataless`: scan every listed name, setting `found` when a
   * name passes the per-name test; a failed query answers `false`.
   */
  method IsDataless(xattrs: Option<seq<string>>) returns (found: bool)
    ensures found == Verdict(xattrs)
  {
    if xattrs.None? {
      return false;
    }
    var names := xattrs.value;
    found := false;
    var i := 0;
    while i < |names|
      invariant 0 <= i <= |names|
      invariant ScanNames(found, names[i..]) == ScanNames(false, names)
    {
      assert names[i..][1..] == names[i + 1..];
      if IsPlaceholderName(names[i]) {
        found := true;
      }
      i := i + 1;
    }
  }
}
