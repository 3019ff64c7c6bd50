/**
 * `cleanImages`: deletes every ".jpg" and ".png" below the destination image
 * root except the files of an allow-list, given as paths relative to that
 * root.  The patterns are a recursive "*.jpg" glob, a recursive "*.png" glob
 * and one negated pattern per allow-listed file, matched from the destination
 * root.
 */
module Cleanup {
  import opened Paths
  import opened Fs

  /** `excludeFilesList`, relative to the destination image root. */
  const EXCLUDE_FILES: seq<string> := ["sora.jpg"]

  /** `f.replace(/\\/g, "/")`: every backslash becomes a forward slash. */
  function ToPosix(s: string): string
  {
    seq(|s|, i requires 0 <= i < |s| => if s[i] == '\\' then '/' else s[i])
  }

  /** No backslash is left, every other character stays where it was, and a
      second conversion changes nothing. */
  lemma ToPosixSpec(s: string)
    ensures |ToPosix(s)| == |s| && '\\' !in ToPosix(s)
    ensures forall i :: 0 <= i < |s| ==> ToPosix(s)[i] == (if s[i] == '\\' then '/' else s[i])
    ensures ToPosix(ToPosix(s)) == ToPosix(s)
    ensures '\\' !in s ==> ToPosix(s) == s
  {
  }

  /** `s` ends with the literal `x`, letter case included. */
  predicate HasSuffix(s: string, x: string)
  {
    |s| >= |x| && s[|s| - |x|..] == x
  }

  /** A path relative to the destination root that the recursive "*.jpg" or
      "*.png" glob matches: a plain path (the globs skip names starting
      with '.') ending in ".jpg" or ".png" exactly. */
  predicate GlobSelected(rel: Path)
  {
    PlainRelPath(rel) && (HasSuffix(rel, ".jpg") || HasSuffix(rel, ".png"))
  }

  /** A negated pattern "!" + the converted allow-list entry matches `rel`. */
  predicate Excluded(rel: Path)
  {
    exists f <- EXCLUDE_FILES :: ToPosix(f) == rel
  }

  /** The files the patterns select. */
  function CleanTargets(c: Config, files: set<Path>): set<Path>
  {
    set p | p in files && UnderRoot(c.destRoot, p) &&
      GlobSelected(RelativeTo(c.destRoot, p)) && !Excluded(RelativeTo(c.destRoot, p))
  }

  /** The allow-list is written with forward slashes, so it excludes exactly
      the relative paths it lists. */
  lemma ExcludedIsAllowList(rel: Path)
    ensures Excluded(rel) <==> rel in EXCLUDE_FILES
  {
    ToPosixSpec("sora.jpg");
  }

  /** After the deletion (of every target except those that fail), no
      selected ".jpg"/".png" remains below the destination root unless it is
      allow-listed or its deletion failed, and every allow-listed file and
      every file outside the destination tree is still there. */
  lemma CleanAllowList(c: Config, files: set<Path>, faults: map<Path, Fault>, p: Path)
    requires p in files
    ensures var after := files - (CleanTargets(c, files) - faults.Keys);
      (UnderRoot(c.destRoot, p) && GlobSelected(RelativeTo(c.destRoot, p)) && p in after ==>
         RelativeTo(c.destRoot, p) in EXCLUDE_FILES || p in faults) &&
      (UnderRoot(c.destRoot, p) && RelativeTo(c.destRoot, p) in EXCLUDE_FILES ==> p in after) &&
      (!UnderRoot(c.destRoot, p) ==> p in after)
  {
    if UnderRoot(c.destRoot, p) {
      ExcludedIsAllowList(RelativeTo(c.destRoot, p));
    }
  }

  /** A file whose extension is ".jpeg", ".avif", ".webp" or ".svg", in any
      letter case, is never selected. */
  lemma CleanKeepsOtherFormats(c: Config, files: set<Path>, p: Path, e: string)
    requires e == "jpeg" || e == "avif" || e == "webp" || e == "svg"
    requires EndsWithExt(p, e)
    ensures p !in CleanTargets(c, files)
  {
    if p in CleanTargets(c, files) {
      var rel := RelativeTo(c.destRoot, p);
      assert p[|p| - |rel|..] == rel;
      SuffixOfOtherFormat(p, e, rel);
      assert false;
    }
  }

  /** The letters of a ".jpeg", ".avif", ".webp" or ".svg" ending rule out a
      ".jpg" or ".png" ending. */
  lemma SuffixOfOtherFormat(p: Path, e: string, rel: Path)
    requires e == "jpeg" || e == "avif" || e == "webp" || e == "svg"
    requires EndsWithExt(p, e) && |rel| <= |p| && p[|p| - |rel|..] == rel
    ensures !HasSuffix(rel, ".jpg") && !HasSuffix(rel, ".png")
  {
    var n := |p|;
    assert Lower(p[n - 1]) == e[|e| - 1] && Lower(p[n - 2]) == e[|e| - 2] by {
      var tail := p[n - |e|..];
      assert tail[|e| - 1] == p[n - 1] && tail[|e| - 2] == p[n - 2];
    }
    if |rel| >= 4 {
      assert rel[|rel| - 1] == p[n - 1] && rel[|rel| - 2] == p[n - 2];
      var end := rel[|rel| - 4..];
      assert end[3] == rel[|rel| - 1] && end[2] == rel[|rel| - 2];
    }
  }

  /** The allow-list names paths from the destination root, so the top-level
      "sora.jpg" is kept while a "sora.jpg" in a sub-directory is deleted. */
  lemma AllowListIsExactPath(c: Config, files: set<Path>)
    requires Join(c.destRoot, "sora.jpg") in files && Join(c.destRoot, "top/sora.jpg") in files
    ensures Join(c.destRoot, "sora.jpg") !in CleanTargets(c, files)
    ensures Join(c.destRoot, "top/sora.jpg") in CleanTargets(c, files)
  {
    var q := Join(c.destRoot, "top/sora.jpg");
    JoinRelative(c.destRoot, "sora.jpg");
    JoinRelative(c.destRoot, "top/sora.jpg");
    ExcludedIsAllowList("sora.jpg");
    ExcludedIsAllowList("top/sora.jpg");
    assert HasSuffix("top/sora.jpg", ".jpg");
    assert PlainRelPath("top/sora.jpg");
  }

  /** `cleanImages`: the selected files are deleted together; a failing
      deletion does not stop the others, and the task fails with the error
      of some failing deletion. */
  method CleanImages(fs: FileSystem, c: Config) returns (res: Outcome)
    modifies fs
    ensures fs.files == old(fs.files) - (CleanTargets(c, old(fs.files)) - fs.faults.Keys)
    ensures res == Pass <==> CleanTargets(c, old(fs.files)) !! fs.faults.Keys
    ensures res.Fail? ==> exists t :: t in CleanTargets(c, old(fs.files)) && t in fs.faults && res.error == fs.faults[t]
  {
    var targets := CleanTargets(c, fs.files);
    res := fs.DeleteAll(targets);
  }
}
