/**
 * Path arithmetic of the image bookkeeping: the two image roots, the
 * source-to-destination mapping, the trailing-extension rewrite used by the
 * unlink hooks and by the derived-format conversion, and the extension that
 * `path.parse` reports, which the orphan pruning relies on.
 *
 * Paths are strings in one canonical form: absolute for roots and full paths,
 * segments separated by '/', no empty, "." or ".." segments.
 */
module Paths {

  type Path = string

  /** The alternatives of the `replace_ext` pattern, lower case, without the dot. */
  const IMAGE_EXTS: seq<string> := ["jpg", "jpeg", "png", "svg", "avif", "webp"]

  /** The alternatives of the derived-name pattern: raster sources only. */
  const RASTER_EXTS: seq<string> := ["jpg", "jpeg", "png"]

  /** `IMG_FORMAT`: the format the conversion task produces. */
  const IMG_FORMAT: string := "avif"

  /** The extension the derived-format conversion gives its output. */
  const DERIVED_EXT: string := "." + IMG_FORMAT

  /** The two variants the raster unlink hook deletes, written there as
      literals. */
  const AVIF_EXT: string := ".avif"
  const WEBP_EXT: string := ".webp"

  // ---------------------------------------------------------------------
  // Case-insensitive suffix matching
  // ---------------------------------------------------------------------

  /** ASCII lower-casing: what a case-insensitive regular expression without
      the unicode flag folds for the letters the patterns use. */
  function Lower(c: char): char
  {
    if 'A' <= c <= 'Z' then (c as int + 32) as char else c
  }

  function LowerStr(s: string): string
  {
    seq(|s|, i requires 0 <= i < |s| => Lower(s[i]))
  }

  /** An extension alternative: a non-empty run of lower-case letters. */
  predicate ExtLetters(e: string)
  {
    |e| > 0 && forall i :: 0 <= i < |e| ==> 'a' <= e[i] <= 'z'
  }

  predicate AllExtLetters(exts: seq<string>)
  {
    forall e <- exts :: ExtLetters(e)
  }

  /** `x` lower-cased is `y`. */
  predicate LowerEq(x: string, y: string)
  {
    |x| == |y| && forall i :: 0 <= i < |x| ==> Lower(x[i]) == y[i]
  }

  /** `p` matches `\.e$` case-insensitively. */
  predicate EndsWithExt(p: Path, e: string)
  {
    |p| > |e| && p[|p| - |e| - 1] == '.' && LowerEq(p[|p| - |e|..], e)
  }

  predicate HasExtIn(p: Path, exts: seq<string>)
  {
    exists e <- exts :: EndsWithExt(p, e)
  }

  /** The dot that ends a shorter alternative lies inside the letters of a
      longer one that matches, so the shorter one cannot match too. */
  lemma LongerMatchHidesShorter(p: Path, short: string, long: string)
    requires ExtLetters(long) && |short| < |long| && EndsWithExt(p, long)
    ensures p[|p| - |short| - 1] != '.'
  {
    var k := |p| - |short| - 1;
    var j := k - (|p| - |long|);
    assert p[|p| - |long|..][j] == p[k];
    assert 'a' <= long[j] <= 'z';
  }

  /** At most one alternative of a `\.(a|b|...)$` pattern matches a path. */
  lemma ExtUnique(p: Path, e1: string, e2: string)
    requires ExtLetters(e1) && ExtLetters(e2)
    requires EndsWithExt(p, e1) && EndsWithExt(p, e2)
    ensures e1 == e2
  {
    if |e1| < |e2| {
      LongerMatchHidesShorter(p, e1, e2);
      assert false;
    } else if |e2| < |e1| {
      LongerMatchHidesShorter(p, e2, e1);
      assert false;
    }
  }

  lemma OnlyOneMatches(p: Path, exts: seq<string>, e0: string)
    requires AllExtLetters(exts) && ExtLetters(e0) && EndsWithExt(p, e0)
    ensures forall e <- exts :: EndsWithExt(p, e) ==> e == e0
  {
    forall e | e in exts && EndsWithExt(p, e)
      ensures e == e0
    {
      ExtUnique(p, e, e0);
    }
  }

  /** `p.replace(/\.(exts)$/i, newExt)`, trying the alternatives in turn. */
  function ReplaceTrailing(p: Path, exts: seq<string>, newExt: string): Path
    decreases |exts|
  {
    if exts == [] then p
    else if EndsWithExt(p, exts[0]) then p[..|p| - |exts[0]| - 1] + newExt
    else ReplaceTrailing(p, exts[1..], newExt)
  }

  /** The matched trailing extension, dot included, becomes `newExt`, and the
      prefix before it is kept; a path that matches none of the alternatives
      comes back unchanged.  The order of the alternatives does not matter,
      since no two of them match the same path. */
  lemma {:induction false} ReplaceTrailingSpec(p: Path, exts: seq<string>, newExt: string)
    requires AllExtLetters(exts)
    ensures !HasExtIn(p, exts) ==> ReplaceTrailing(p, exts, newExt) == p
    ensures forall e <- exts :: EndsWithExt(p, e) ==> ReplaceTrailing(p, exts, newExt) == p[..|p| - |e| - 1] + newExt
    decreases |exts|
  {
    if exts != [] {
      if EndsWithExt(p, exts[0]) {
        OnlyOneMatches(p, exts, exts[0]);
      } else {
        assert forall e <- exts[1..] :: e in exts;
        assert forall e <- exts :: e == exts[0] || e in exts[1..];
        ReplaceTrailingSpec(p, exts[1..], newExt);
      }
    }
  }

  /** A path that ends in an extension literal matches that literal's letters,
      lower-cased, and the prefix before the dot is what was there before. */
  lemma EndsWithOwnExt(stem: Path, x: string)
    requires |x| > 1 && x[0] == '.'
    ensures EndsWithExt(stem + x, LowerStr(x[1..]))
    ensures (stem + x)[..|stem + x| - |LowerStr(x[1..])| - 1] == stem
  {
    var r := stem + x;
    assert r[|r| - (|x| - 1)..] == x[1..];
    assert r[|stem|] == '.';
  }

  /** Rewriting to an extension that is itself one of the alternatives, in
      any letter case, a second time changes nothing. */
  lemma ReplaceTrailingIdempotent(p: Path, exts: seq<string>, newExt: string)
    requires AllExtLetters(exts)
    requires |newExt| > 1 && newExt[0] == '.' && LowerStr(newExt[1..]) in exts
    ensures ReplaceTrailing(ReplaceTrailing(p, exts, newExt), exts, newExt) == ReplaceTrailing(p, exts, newExt)
  {
    ReplaceTrailingSpec(p, exts, newExt);
    if HasExtIn(p, exts) {
      var e :| e in exts && EndsWithExt(p, e);
      var stem := p[..|p| - |e| - 1];
      EndsWithOwnExt(stem, newExt);
      ReplaceTrailingSpec(stem + newExt, exts, newExt);
    }
  }

  /** Rewriting never empties a non-empty path when the new extension is
      non-empty. */
  lemma {:induction false} ReplaceTrailingNonEmpty(p: Path, exts: seq<string>, newExt: string)
    requires |p| > 0 && |newExt| > 0
    ensures |ReplaceTrailing(p, exts, newExt)| > 0
    decreases |exts|
  {
    if exts != [] && !EndsWithExt(p, exts[0]) {
      ReplaceTrailingNonEmpty(p, exts[1..], newExt);
    }
  }

  /** `replace_ext`.  A '$' in the replacement would start a substitution
      pattern of `String.prototype.replace`; every caller passes a plain
      extension. */
  function ReplaceExt(p: Path, newExt: string): Path
    requires '$' !in newExt
  {
    ReplaceTrailing(p, IMAGE_EXTS, newExt)
  }

  lemma ImageExtsAreLetters()
    ensures AllExtLetters(IMAGE_EXTS) && AllExtLetters(RASTER_EXTS)
    ensures forall e <- RASTER_EXTS :: e in IMAGE_EXTS
  {
  }

  /** `replace_ext` rewrites a trailing .jpg/.jpeg/.png/.svg/.avif/.webp, in
      any letter case, keeping everything before it, and leaves every other
      path alone. */
  lemma ReplaceExtSpec(p: Path, newExt: string)
    requires '$' !in newExt
    ensures !HasExtIn(p, IMAGE_EXTS) ==> ReplaceExt(p, newExt) == p
    ensures forall e <- IMAGE_EXTS :: EndsWithExt(p, e) ==> ReplaceExt(p, newExt) == p[..|p| - |e| - 1] + newExt
  {
    ImageExtsAreLetters();
    ReplaceTrailingSpec(p, IMAGE_EXTS, newExt);
  }

  /** An extension written with its dot whose letters, in any case, are one of
      the `replace_ext` alternatives (".avif", ".WEBP", ...). */
  predicate IsImageExtLiteral(x: string)
  {
    |x| > 1 && x[0] == '.' && LowerStr(x[1..]) in IMAGE_EXTS
  }

  /** A path that ends in an image extension literal has exactly that
      extension rewritten. */
  lemma ReplaceExtOfLiteral(stem: Path, x: string, newExt: string)
    requires IsImageExtLiteral(x) && '$' !in newExt
    ensures ReplaceExt(stem + x, newExt) == stem + newExt
  {
    ImageExtsAreLetters();
    EndsWithOwnExt(stem, x);
    ReplaceTrailingSpec(stem + x, IMAGE_EXTS, newExt);
  }

  /** Rewriting to an image extension twice is rewriting once. */
  lemma ReplaceExtIdempotent(p: Path, newExt: string)
    requires '$' !in newExt && IsImageExtLiteral(newExt)
    ensures ReplaceExt(ReplaceExt(p, newExt), newExt) == ReplaceExt(p, newExt)
  {
    ImageExtsAreLetters();
    ReplaceTrailingIdempotent(p, IMAGE_EXTS, newExt);
  }

  /** The derived-file name (`file.path.replace(/\.(jpg|jpeg|png)$/i, ".avif")`). */
  function DerivedName(p: Path): Path
  {
    ReplaceTrailing(p, RASTER_EXTS, DERIVED_EXT)
  }

  /** The conversion renames a trailing .jpg/.jpeg/.png, in any letter case,
      to ".avif", keeping everything before it; it leaves .svg, .avif, .webp
      and every other path alone. */
  lemma DerivedNameSpec(p: Path)
    ensures !HasExtIn(p, RASTER_EXTS) ==> DerivedName(p) == p
    ensures forall e <- RASTER_EXTS :: EndsWithExt(p, e) ==> DerivedName(p) == p[..|p| - |e| - 1] + DERIVED_EXT
  {
    ImageExtsAreLetters();
    ReplaceTrailingSpec(p, RASTER_EXTS, DERIVED_EXT);
  }

  /** On every path the conversion renames, and on every path that carries no
      image extension at all, the derived name is the ".avif" target of the
      raster unlink hook. */
  lemma DerivedNameIsAvifTarget(p: Path)
    requires HasExtIn(p, RASTER_EXTS) || !HasExtIn(p, IMAGE_EXTS)
    ensures DerivedName(p) == ReplaceExt(p, AVIF_EXT)
  {
    assert DERIVED_EXT == AVIF_EXT;
    ImageExtsAreLetters();
    ReplaceTrailingSpec(p, RASTER_EXTS, DERIVED_EXT);
    ReplaceTrailingSpec(p, IMAGE_EXTS, DERIVED_EXT);
    if HasExtIn(p, RASTER_EXTS) {
      var e :| e in RASTER_EXTS && EndsWithExt(p, e);
      assert e in IMAGE_EXTS;
    }
  }

  // ---------------------------------------------------------------------
  // Roots and the source-to-destination mapping
  // ---------------------------------------------------------------------

  /** An absolute, resolved directory: starts with '/', no trailing '/'. */
  predicate AbsRoot(root: Path)
  {
    |root| > 0 && root[0] == '/' && root[|root| - 1] != '/'
  }

  /** `p` is a path strictly inside the directory `root`. */
  predicate UnderRoot(root: Path, p: Path)
  {
    |p| > |root| + 1 && p[..|root|] == root && p[|root|] == '/'
  }

  /** `b` is the directory `a` itself or lies inside it. */
  predicate Within(a: Path, b: Path)
  {
    a == b || (|b| > |a| && b[..|a|] == a && b[|a|] == '/')
  }

  /** `path.join(root, rel)` on a canonical relative path. */
  function Join(root: Path, rel: Path): Path
  {
    root + "/" + rel
  }

  /** `path.relative(root, p)` for a path inside `root`. */
  function RelativeTo(root: Path, p: Path): (rel: Path)
    requires UnderRoot(root, p)
    ensures |rel| > 0 && Join(root, rel) == p
  {
    p[|root| + 1..]
  }

  lemma JoinRelative(root: Path, rel: Path)
    requires |rel| > 0
    ensures UnderRoot(root, Join(root, rel)) && RelativeTo(root, Join(root, rel)) == rel
  {
    assert Join(root, rel)[..|root|] == root;
  }

  /** The two image roots (`src_img_root`, `dest_img_root`), resolved. */
  datatype Config = Config(srcRoot: Path, destRoot: Path)

  /** Both roots are resolved directories and neither lies inside the other,
      as for "src/images" and "dist/assets/images". */
  predicate ValidConfig(c: Config)
  {
    AbsRoot(c.srcRoot) && AbsRoot(c.destRoot) &&
    !Within(c.srcRoot, c.destRoot) && !Within(c.destRoot, c.srcRoot)
  }

  lemma SharedPathNestsRoots(a: Path, b: Path, p: Path)
    requires UnderRoot(a, p) && UnderRoot(b, p)
    ensures Within(a, b) || Within(b, a)
  {
    if |a| < |b| {
      assert b[..|a|] == p[..|a|];
      assert b[|a|] == p[|a|];
    } else if |b| < |a| {
      assert a[..|b|] == p[..|b|];
      assert a[|b|] == p[|b|];
    } else {
      assert a == p[..|a|] == b;
    }
  }

  /** No path lies in both trees. */
  lemma TreesDisjoint(c: Config, p: Path)
    requires ValidConfig(c)
    ensures UnderRoot(c.destRoot, p) ==> !UnderRoot(c.srcRoot, p)
  {
    if UnderRoot(c.destRoot, p) && UnderRoot(c.srcRoot, p) {
      SharedPathNestsRoots(c.srcRoot, c.destRoot, p);
      assert false;
    }
  }

  /** `map_src_to_dest`: the same relative sub-path under the destination root. */
  function MapSrcToDest(c: Config, p: Path): (r: Path)
    requires UnderRoot(c.srcRoot, p)
    ensures UnderRoot(c.destRoot, r)
    ensures RelativeTo(c.destRoot, r) == RelativeTo(c.srcRoot, p)
  {
    var rel := RelativeTo(c.srcRoot, p);
    JoinRelative(c.destRoot, rel);
    Join(c.destRoot, rel)
  }

  /** Distinct sources never share an output path. */
  lemma MapSrcToDestInjective(c: Config, p: Path, q: Path)
    requires UnderRoot(c.srcRoot, p) && UnderRoot(c.srcRoot, q)
    requires MapSrcToDest(c, p) == MapSrcToDest(c, q)
    ensures p == q
  {
    assert RelativeTo(c.srcRoot, p) == RelativeTo(c.srcRoot, q);
  }

  /** Neither the dot nor the letters of a matched extension are a '/'. */
  lemma NoSlashInMatchedExt(p: Path, e: string, k: int)
    requires ExtLetters(e) && EndsWithExt(p, e) && |p| - |e| - 1 <= k < |p|
    ensures p[k] != '/'
  {
    if k >= |p| - |e| {
      assert p[|p| - |e|..][k - (|p| - |e|)] == p[k];
      assert 'a' <= e[k - (|p| - |e|)] <= 'z';
    }
  }

  /** A trailing extension is recognised in the same way on a relative path and
      on that path joined under a root, and the stem joins in the same way. */
  lemma EndsWithExtJoin(root: Path, rel: Path, e: string)
    requires ExtLetters(e) && |rel| > 0
    ensures EndsWithExt(Join(root, rel), e) <==> EndsWithExt(rel, e)
    ensures EndsWithExt(rel, e) ==>
      Join(root, rel)[..|Join(root, rel)| - |e| - 1] == Join(root, rel[..|rel| - |e| - 1])
  {
    var p := Join(root, rel);
    assert p[|p| - |rel|..] == rel;
    if EndsWithExt(p, e) && |rel| <= |e| {
      NoSlashInMatchedExt(p, e, |root|);
      assert false;
    }
    if EndsWithExt(p, e) || EndsWithExt(rel, e) {
      assert p[|p| - |e|..] == rel[|rel| - |e|..];
      assert p[|p| - |e| - 1] == rel[|rel| - |e| - 1];
      assert p[..|p| - |e| - 1] == root + "/" + rel[..|rel| - |e| - 1];
    }
  }

  /** Rewriting the extension of a path joined under a root is rewriting the
      extension of the relative part. */
  lemma {:induction false} ReplaceTrailingJoin(root: Path, rel: Path, exts: seq<string>, newExt: string)
    requires AllExtLetters(exts) && |rel| > 0
    ensures ReplaceTrailing(Join(root, rel), exts, newExt) == Join(root, ReplaceTrailing(rel, exts, newExt))
    decreases |exts|
  {
    if exts != [] {
      EndsWithExtJoin(root, rel, exts[0]);
      if EndsWithExt(rel, exts[0]) {
        var stem := rel[..|rel| - |exts[0]| - 1];
        assert Join(root, stem) + newExt == Join(root, stem + newExt);
      } else {
        assert forall e <- exts[1..] :: e in exts;
        ReplaceTrailingJoin(root, rel, exts[1..], newExt);
      }
    }
  }

  /** Rewriting the extension of an output path is rewriting the extension of
      its source and mapping the result: the derived variant of a source lands
      where the unlink hook looks for it. */
  lemma ReplaceExtCommutesWithMap(c: Config, p: Path, newExt: string)
    requires UnderRoot(c.srcRoot, p) && '$' !in newExt && |newExt| > 0
    ensures UnderRoot(c.srcRoot, ReplaceExt(p, newExt))
    ensures MapSrcToDest(c, ReplaceExt(p, newExt)) == ReplaceExt(MapSrcToDest(c, p), newExt)
  {
    var rel := RelativeTo(c.srcRoot, p);
    var rel' := ReplaceExt(rel, newExt);
    ImageExtsAreLetters();
    ReplaceTrailingJoin(c.srcRoot, rel, IMAGE_EXTS, newExt);
    ReplaceTrailingJoin(c.destRoot, rel, IMAGE_EXTS, newExt);
    ReplaceTrailingNonEmpty(rel, IMAGE_EXTS, newExt);
    JoinRelative(c.srcRoot, rel');
  }

  /** The derived file written for a raster source (renamed at conversion, then
      written under the destination root) is the ".avif" path the raster
      unlink hook deletes. */
  lemma DerivedOutputIsUnlinkTarget(c: Config, s: Path)
    requires UnderRoot(c.srcRoot, s) && HasExtIn(s, RASTER_EXTS)
    ensures UnderRoot(c.srcRoot, DerivedName(s))
    ensures MapSrcToDest(c, DerivedName(s)) == ReplaceExt(MapSrcToDest(c, s), AVIF_EXT)
  {
    DerivedNameIsAvifTarget(s);
    ReplaceExtCommutesWithMap(c, s, AVIF_EXT);
  }

  // ---------------------------------------------------------------------
  // The extension `path.parse` reports
  // ---------------------------------------------------------------------

  /** A canonical relative path as a glob without the `dot` option enumerates
      it: non-empty segments, none of them starting with '.'. */
  predicate PlainRelPath(rel: Path)
  {
    |rel| > 0 && rel[0] != '.' && rel[0] != '/' && rel[|rel| - 1] != '/' &&
    forall i :: 0 <= i < |rel| - 1 && rel[i] == '/' ==> rel[i + 1] != '.' && rel[i + 1] != '/'
  }

  /** Scanning `s[..i]` from the right: the index where `path.parse` starts the
      extension (the last dot of the final segment, when a character of that
      segment precedes it), or |s| when there is none. */
  function ExtStartFrom(s: Path, i: nat): nat
    requires i <= |s|
    decreases i
  {
    if i == 0 || s[i - 1] == '/' then |s|
    else if s[i - 1] == '.' then (if i >= 2 && s[i - 2] != '/' then i - 1 else |s|)
    else ExtStartFrom(s, i - 1)
  }

  /** `s[j]` is a dot that follows a character of its segment and is the last
      dot of the final segment. */
  predicate IsExtDot(s: Path, j: nat)
  {
    1 <= j < |s| && s[j] == '.' && s[j - 1] != '/' &&
    forall m :: j < m < |s| ==> s[m] != '.' && s[m] != '/'
  }

  /** The start of `path.parse(s).ext`: when there is one, it is a dot that
      follows a character of the final segment, and no dot or '/' comes after
      it; when there is none, no character is such a dot. */
  function ExtStart(s: Path): (k: nat)
    ensures k <= |s|
    ensures k < |s| ==> s[k] == '.' && k >= 1 && s[k - 1] != '/'
    ensures k < |s| ==> forall j :: k < j < |s| ==> s[j] != '.' && s[j] != '/'
    ensures k == |s| ==> forall j :: 0 <= j < |s| ==> !IsExtDot(s, j)
  {
    ExtStartOfScan(s, |s|);
    ExtStartFrom(s, |s|)
  }

  lemma {:induction false} ExtStartOfScan(s: Path, i: nat)
    requires i <= |s|
    requires forall j :: i <= j < |s| ==> s[j] != '.' && s[j] != '/'
    ensures ExtStartFrom(s, i) <= |s|
    ensures ExtStartFrom(s, i) < |s| ==>
      s[ExtStartFrom(s, i)] == '.' && ExtStartFrom(s, i) >= 1 && s[ExtStartFrom(s, i) - 1] != '/'
    ensures ExtStartFrom(s, i) < |s| ==>
      forall j :: ExtStartFrom(s, i) < j < |s| ==> s[j] != '.' && s[j] != '/'
    ensures ExtStartFrom(s, i) == |s| ==> forall j :: 0 <= j < |s| ==> !IsExtDot(s, j)
    decreases i
  {
    if i > 0 && s[i - 1] != '/' && s[i - 1] != '.' {
      ExtStartOfScan(s, i - 1);
    } else if i > 0 {
      assert s[i - 1] == '.' || s[i - 1] == '/';
    }
  }

  /** `path.parse(rel).ext`. */
  function ParsedExt(rel: Path): string
  {
    rel[ExtStart(rel)..]
  }

  /** Scanning back over letters of an extension reaches its dot. */
  lemma {:induction false} ScanReachesDot(s: Path, k: nat, i: nat)
    requires k < i <= |s| && s[k] == '.' && k >= 1 && s[k - 1] != '/'
    requires forall j :: k < j < i ==> s[j] != '.' && s[j] != '/'
    ensures ExtStartFrom(s, i) == k
    decreases i
  {
    if i > k + 1 {
      ScanReachesDot(s, k, i - 1);
    }
  }

  /** On a plain relative path, `path.parse`'s extension, lower-cased, is
      ".e" exactly when the path matches `\.e$` case-insensitively. */
  lemma ParsedExtMatches(rel: Path, e: string)
    requires PlainRelPath(rel) && ExtLetters(e)
    ensures LowerStr(ParsedExt(rel)) == "." + e <==> EndsWithExt(rel, e)
    ensures EndsWithExt(rel, e) ==> ExtStart(rel) == |rel| - |e| - 1
  {
    var k := ExtStart(rel);
    if EndsWithExt(rel, e) {
      var d := |rel| - |e| - 1;
      forall j | d < j < |rel| ensures rel[j] != '.' && rel[j] != '/' {
        assert rel[|rel| - |e|..][j - d - 1] == rel[j];
        assert 'a' <= e[j - d - 1] <= 'z';
      }
      assert d >= 1;
      ScanReachesDot(rel, d, |rel|);
      assert ParsedExt(rel) == rel[d..];
      assert rel[d..] == ['.'] + rel[|rel| - |e|..];
      assert LowerStr(rel[d..]) == [Lower('.')] + LowerStr(rel[|rel| - |e|..]);
    }
    if LowerStr(ParsedExt(rel)) == "." + e {
      var x := ParsedExt(rel);
      assert |x| == |e| + 1;
      assert k == |rel| - |e| - 1;
      assert rel[k] == '.';
      assert rel[|rel| - |e|..] == x[1..];
      assert LowerStr(x[1..]) == LowerStr(x)[1..];
    }
  }

  /** Replacing the extension of a plain path keeps `path.parse`'s view of
      it: the stem is unchanged and the new extension is reported. */
  lemma ExtStartOfStemAndExt(stem: Path, x: string)
    requires |stem| >= 1 && stem[|stem| - 1] != '/'
    requires |x| >= 1 && x[0] == '.' && forall j :: 1 <= j < |x| ==> x[j] != '.' && x[j] != '/'
    ensures ExtStart(stem + x) == |stem|
    ensures ParsedExt(stem + x) == x
    ensures (stem + x)[..ExtStart(stem + x)] == stem
  {
    var s := stem + x;
    forall j | |stem| < j < |s| ensures s[j] != '.' && s[j] != '/' {
      assert s[j] == x[j - |stem|];
    }
    ScanReachesDot(s, |stem|, |s|);
  }
}
