/**
 * `pruneImages`: the safety-net sweep that deletes orphaned outputs.  Every
 * listed destination image is checked against the source tree: a derived
 * ".avif"/".webp" survives while some raster source with the same stem
 * exists, a ".jpg"/".jpeg"/".png"/".svg" survives while the source at the
 * identical relative path exists, and anything else is never touched.
 */
module Prune {
  import opened Paths
  import opened Fs
  import opened UnlinkHooks

  /** The raster source extensions a derived file may come from, in the order
      they are probed. */
  const RASTER_SOURCE_EXTS: seq<string> := [".jpg", ".jpeg", ".png"]

  /** The source a destination path mirrors: the inverse of `map_src_to_dest`. */
  function SourceOf(c: Config, p: Path): (s: Path)
    requires UnderRoot(c.destRoot, p)
    ensures UnderRoot(c.srcRoot, s) && MapSrcToDest(c, s) == p
    ensures RelativeTo(c.srcRoot, s) == RelativeTo(c.destRoot, p)
  {
    var rel := RelativeTo(c.destRoot, p);
    JoinRelative(c.srcRoot, rel);
    Join(c.srcRoot, rel)
  }

  /** The lower-cased extensions of derived files. */
  predicate IsDerivedExt(ext: string)
  {
    ext == ".avif" || ext == ".webp"
  }

  /** The lower-cased extensions of files copied from a source of the same
      name. */
  predicate IsExactExt(ext: string)
  {
    ext == ".jpg" || ext == ".jpeg" || ext == ".png" || ext == ".svg"
  }

  /** One of `relNoExt` + ".jpg", ".jpeg", ".png" exists under the source root. */
  predicate HasRasterSource(c: Config, files: set<Path>, relNoExt: Path)
  {
    Join(c.srcRoot, relNoExt + ".jpg") in files ||
    Join(c.srcRoot, relNoExt + ".jpeg") in files ||
    Join(c.srcRoot, relNoExt + ".png") in files
  }

  /** The per-file decision for a listed destination file `p`, taken against
      the files that exist: the extension `path.parse` reports, lower-cased,
      selects the rule, and the existence checks look under the source root. */
  predicate ShouldDelete(c: Config, files: set<Path>, p: Path)
    requires UnderRoot(c.destRoot, p)
  {
    var rel := RelativeTo(c.destRoot, p);
    var ext := LowerStr(ParsedExt(rel));
    if IsDerivedExt(ext) then !HasRasterSource(c, files, rel[..ExtStart(rel)])
    else if IsExactExt(ext) then Join(c.srcRoot, rel) !in files
    else false
  }

  /** Which rule a matched image extension selects. */
  lemma ClassOfDotted(e: string)
    requires e in IMAGE_EXTS
    ensures IsDerivedExt("." + e) <==> e == "avif" || e == "webp"
    ensures IsExactExt("." + e) <==> e == "jpg" || e == "jpeg" || e == "png" || e == "svg"
  {
  }

  /** An extension that is none of the six selects no rule. */
  lemma ClassOfOther(ext: string)
    requires forall e <- IMAGE_EXTS :: ext != "." + e
    ensures !IsDerivedExt(ext) && !IsExactExt(ext)
  {
    assert ".avif" == "." + "avif" && ".webp" == "." + "webp";
    assert ".jpg" == "." + "jpg" && ".jpeg" == "." + "jpeg";
    assert ".png" == "." + "png" && ".svg" == "." + "svg";
  }

  /** A string with no upper-case ASCII letter is its own lower-casing. */
  lemma LowerStrOfLowercase(x: string)
    requires forall j :: 0 <= j < |x| ==> !('A' <= x[j] <= 'Z')
    ensures LowerStr(x) == x
  {
  }

  /** The extensions the raster source probes and the hook's variants use are
      already lower case, and each is a `replace_ext` alternative. */
  lemma OutputExtLiteral(x: string)
    requires x in RASTER_SOURCE_EXTS || x == AVIF_EXT || x == WEBP_EXT
    ensures IsImageExtLiteral(x) && LowerStr(x) == x
    ensures x in RASTER_SOURCE_EXTS ==> IsExactExt(x)
    ensures x == AVIF_EXT || x == WEBP_EXT ==> IsDerivedExt(x)
    ensures |x| >= 1 && x[0] == '.' && forall j :: 1 <= j < |x| ==> x[j] != '.' && x[j] != '/'
  {
    LowerStrOfLowercase(x);
    LowerStrOfLowercase(x[1..]);
  }

  /** On a listed name with a matched image extension `e`, the decision is
      the rule `e` selects, with the stem before ".e". */
  lemma ShouldDeleteMatched(c: Config, files: set<Path>, p: Path, e: string)
    requires UnderRoot(c.destRoot, p) && PlainRelPath(RelativeTo(c.destRoot, p))
    requires e in IMAGE_EXTS && EndsWithExt(p, e)
    ensures |RelativeTo(c.destRoot, p)| > |e|
    ensures ShouldDelete(c, files, p) ==
      if e == "avif" || e == "webp" then
        !HasRasterSource(c, files, RelativeTo(c.destRoot, p)[..|RelativeTo(c.destRoot, p)| - |e| - 1])
      else if e == "jpg" || e == "jpeg" || e == "png" || e == "svg" then
        Join(c.srcRoot, RelativeTo(c.destRoot, p)) !in files
      else false
  {
    var rel := RelativeTo(c.destRoot, p);
    ImageExtsAreLetters();
    EndsWithExtJoin(c.destRoot, rel, e);
    ParsedExtMatches(rel, e);
    ClassOfDotted(e);
  }

  /** The listed files the sweep decides to delete. */
  function PruneTargets(c: Config, files: set<Path>, listing: seq<Path>): set<Path>
    requires forall p <- listing :: UnderRoot(c.destRoot, p)
  {
    set p | p in listing && ShouldDelete(c, files, p)
  }

  /** `s` is a raster source of the derived file `p` (whose extension, dot
      included, is the last |e| + 1 characters): its output is `p` with
      ".jpg", ".jpeg" or ".png" in place of that extension. */
  predicate RasterSourceOf(c: Config, s: Path, p: Path, e: string)
  {
    UnderRoot(c.srcRoot, s) && |p| > |e| &&
    var base := p[..|p| - |e| - 1];
    (MapSrcToDest(c, s) == base + ".jpg" || MapSrcToDest(c, s) == base + ".jpeg" || MapSrcToDest(c, s) == base + ".png")
  }

  /** The checks only look inside the source tree, so files elsewhere (in
      particular the destination files already deleted) do not affect a
      decision. */
  lemma DecisionUnaffected(c: Config, files1: set<Path>, files2: set<Path>, p: Path)
    requires UnderRoot(c.destRoot, p)
    requires forall q :: UnderRoot(c.srcRoot, q) ==> (q in files1 <==> q in files2)
    ensures ShouldDelete(c, files1, p) == ShouldDelete(c, files2, p)
  {
    var rel := RelativeTo(c.destRoot, p);
    var relNoExt := rel[..ExtStart(rel)];
    JoinRelative(c.srcRoot, rel);
    JoinRelative(c.srcRoot, relNoExt + ".jpg");
    JoinRelative(c.srcRoot, relNoExt + ".jpeg");
    JoinRelative(c.srcRoot, relNoExt + ".png");
  }

  /** A ".jpg", ".jpeg", ".png" or ".svg" destination file, in any letter case,
      is deleted exactly when no existing source maps onto it. */
  lemma PruneExactRule(c: Config, files: set<Path>, p: Path, e: string)
    requires UnderRoot(c.destRoot, p) && PlainRelPath(RelativeTo(c.destRoot, p))
    requires (e == "jpg" || e == "jpeg" || e == "png" || e == "svg") && EndsWithExt(p, e)
    ensures ShouldDelete(c, files, p) <==> !exists s :: s in files && UnderRoot(c.srcRoot, s) && MapSrcToDest(c, s) == p
  {
    ShouldDeleteMatched(c, files, p, e);
    var src := SourceOf(c, p);
    assert Join(c.srcRoot, RelativeTo(c.destRoot, p)) == src;
    forall s | s in files && UnderRoot(c.srcRoot, s) && MapSrcToDest(c, s) == p
      ensures s == src
    {
      MapSrcToDestInjective(c, s, src);
    }
  }

  /** A ".avif" or ".webp" destination file, in any letter case, is deleted
      exactly when no raster source of it exists. */
  lemma PruneDerivedRule(c: Config, files: set<Path>, p: Path, e: string)
    requires UnderRoot(c.destRoot, p) && PlainRelPath(RelativeTo(c.destRoot, p))
    requires (e == "avif" || e == "webp") && EndsWithExt(p, e)
    ensures ShouldDelete(c, files, p) <==> !exists s :: s in files && RasterSourceOf(c, s, p, e)
  {
    var rel := RelativeTo(c.destRoot, p);
    assert |rel| > |e| && ShouldDelete(c, files, p) == !HasRasterSource(c, files, rel[..|rel| - |e| - 1]) by {
      ShouldDeleteMatched(c, files, p, e);
    }
    var stem := rel[..|rel| - |e| - 1];
    assert p[..|p| - |e| - 1] == Join(c.destRoot, stem) by {
      EndsWithExtJoin(c.destRoot, rel, e);
    }
    RasterSourcesOfStem(c, files, stem, p, e);
  }

  /** The three probes find a file exactly when some existing source is a
      raster source of `p`, whose name before ".e" is `stem` joined under the
      destination root. */
  lemma RasterSourcesOfStem(c: Config, files: set<Path>, stem: Path, p: Path, e: string)
    requires |p| > |e| && p[..|p| - |e| - 1] == Join(c.destRoot, stem)
    ensures HasRasterSource(c, files, stem) <==> exists s :: s in files && RasterSourceOf(c, s, p, e)
  {
    var base := Join(c.destRoot, stem);
    RasterSourceAt(c, files, stem, ".jpg");
    RasterSourceAt(c, files, stem, ".jpeg");
    RasterSourceAt(c, files, stem, ".png");
  }

  /** The source probed at `stem + x` exists exactly when some existing source
      maps onto the destination path `stem + x`. */
  lemma RasterSourceAt(c: Config, files: set<Path>, stem: Path, x: string)
    requires |x| > 0
    ensures Join(c.srcRoot, stem + x) in files <==>
      exists s :: s in files && UnderRoot(c.srcRoot, s) && MapSrcToDest(c, s) == Join(c.destRoot, stem) + x
  {
    var src := Join(c.srcRoot, stem + x);
    JoinRelative(c.srcRoot, stem + x);
    assert Join(c.destRoot, stem) + x == Join(c.destRoot, stem + x);
    forall s | s in files && UnderRoot(c.srcRoot, s) && MapSrcToDest(c, s) == Join(c.destRoot, stem) + x
      ensures s == src
    {
      MapSrcToDestInjective(c, s, src);
    }
  }

  /** A file whose name carries none of the six image extensions, in any
      letter case, is never deleted. */
  lemma PruneOtherKept(c: Config, files: set<Path>, p: Path)
    requires UnderRoot(c.destRoot, p) && PlainRelPath(RelativeTo(c.destRoot, p))
    requires !HasExtIn(p, IMAGE_EXTS)
    ensures !ShouldDelete(c, files, p)
  {
    var rel := RelativeTo(c.destRoot, p);
    var ext := LowerStr(ParsedExt(rel));
    ImageExtsAreLetters();
    forall e | e in IMAGE_EXTS ensures ext != "." + e {
      EndsWithExtJoin(c.destRoot, rel, e);
      ParsedExtMatches(rel, e);
    }
    ClassOfOther(ext);
  }

  /** Every target is a listed destination file outside the source tree, and
      (for the names the listing produces) carries an image extension. */
  lemma PruneTargetsSafe(c: Config, files: set<Path>, listing: seq<Path>)
    requires ValidConfig(c)
    requires forall p <- listing :: UnderRoot(c.destRoot, p)
    ensures forall t <- PruneTargets(c, files, listing) ::
      t in listing && UnderRoot(c.destRoot, t) && !UnderRoot(c.srcRoot, t) &&
      (PlainRelPath(RelativeTo(c.destRoot, t)) ==> HasExtIn(t, IMAGE_EXTS))
  {
    forall t | t in PruneTargets(c, files, listing)
      ensures !UnderRoot(c.srcRoot, t)
      ensures PlainRelPath(RelativeTo(c.destRoot, t)) ==> HasExtIn(t, IMAGE_EXTS)
    {
      TreesDisjoint(c, t);
      if PlainRelPath(RelativeTo(c.destRoot, t)) && !HasExtIn(t, IMAGE_EXTS) {
        PruneOtherKept(c, files, t);
      }
    }
  }

  /** The targets depend on which files are listed, not on their order or
      repetitions. */
  lemma PruneOrderIndependent(c: Config, files: set<Path>, listing1: seq<Path>, listing2: seq<Path>)
    requires forall p <- listing1 :: UnderRoot(c.destRoot, p)
    requires forall p :: p in listing1 <==> p in listing2
    ensures PruneTargets(c, files, listing1) == PruneTargets(c, files, listing2)
  {
  }

  lemma PruneTargetsStep(c: Config, files: set<Path>, listing: seq<Path>, i: nat)
    requires i < |listing| && forall p <- listing :: UnderRoot(c.destRoot, p)
    ensures forall p <- listing[..i + 1] :: UnderRoot(c.destRoot, p)
    ensures PruneTargets(c, files, listing[..i + 1]) ==
      PruneTargets(c, files, listing[..i]) + (if ShouldDelete(c, files, listing[i]) then {listing[i]} else {})
  {
    assert listing[..i + 1] == listing[..i] + [listing[i]];
  }

  /** While a lower-case ".jpg", ".jpeg" or ".png" source exists, none of the
      outputs the raster unlink hook would delete for it is pruned. */
  lemma KeepsOutputsOfLiveSource(c: Config, files: set<Path>, s: Path, stem: Path, x: string)
    requires UnderRoot(c.srcRoot, s) && s in files
    requires x in RASTER_SOURCE_EXTS && RelativeTo(c.srcRoot, s) == stem + x
    requires PlainRelPath(stem + x)
    ensures forall t <- RasterOutputs(c, s) :: UnderRoot(c.destRoot, t) && !ShouldDelete(c, files, t)
  {
    RasterOutputsOfStem(c, s, stem, x);
    assert Join(c.srcRoot, stem + x) == s;
    KeptWith(c, files, stem, x, x);
    KeptWith(c, files, stem, x, AVIF_EXT);
    KeptWith(c, files, stem, x, WEBP_EXT);
  }

  /** The output `stem + y` of a live source at `stem + x` is kept. */
  lemma KeptWith(c: Config, files: set<Path>, stem: Path, x: string, y: string)
    requires x in RASTER_SOURCE_EXTS && Join(c.srcRoot, stem + x) in files
    requires y == x || y == AVIF_EXT || y == WEBP_EXT
    requires |stem| >= 1 && stem[|stem| - 1] != '/'
    ensures UnderRoot(c.destRoot, Join(c.destRoot, stem) + y)
    ensures !ShouldDelete(c, files, Join(c.destRoot, stem) + y)
  {
    DecisionOfStemExt(c, files, stem, y);
  }

  /** The raster hook's targets for the source at `stem + x`: the same name
      under the destination root, and that name with ".avif" and ".webp". */
  lemma RasterOutputsOfStem(c: Config, s: Path, stem: Path, x: string)
    requires UnderRoot(c.srcRoot, s)
    requires x in RASTER_SOURCE_EXTS && RelativeTo(c.srcRoot, s) == stem + x
    requires PlainRelPath(stem + x)
    ensures |stem| >= 1 && stem[|stem| - 1] != '/'
    ensures RasterOutputs(c, s) ==
      [Join(c.destRoot, stem) + x, Join(c.destRoot, stem) + AVIF_EXT, Join(c.destRoot, stem) + WEBP_EXT]
  {
    var rel := stem + x;
    OutputExtLiteral(x);
    assert rel[|stem|] == '.';
    assert |stem| >= 1;
    assert rel[|stem| - 1] == stem[|stem| - 1];
    var base := Join(c.destRoot, stem);
    assert MapSrcToDest(c, s) == base + x;
    ReplaceExtOfLiteral(base, x, AVIF_EXT);
    ReplaceExtOfLiteral(base, x, WEBP_EXT);
  }

  /** The decision for the output `stem + y`, with `y` one of the extensions
      the build writes. */
  lemma DecisionOfStemExt(c: Config, files: set<Path>, stem: Path, y: string)
    requires y in RASTER_SOURCE_EXTS || y == AVIF_EXT || y == WEBP_EXT
    requires |stem| >= 1 && stem[|stem| - 1] != '/'
    ensures UnderRoot(c.destRoot, Join(c.destRoot, stem) + y)
    ensures ShouldDelete(c, files, Join(c.destRoot, stem) + y) ==
      if y in RASTER_SOURCE_EXTS then Join(c.srcRoot, stem + y) !in files
      else !HasRasterSource(c, files, stem)
  {
    var t := Join(c.destRoot, stem) + y;
    assert t == Join(c.destRoot, stem + y);
    JoinRelative(c.destRoot, stem + y);
    OutputExtLiteral(y);
    ExtStartOfStemAndExt(stem, y);
  }

  /** `pruneImages` over the enumerated destination images.  Each decision
      reads the files as they are when it is taken; the deletions the
      concurrent `Promise.all` issues all run, whichever of them fails, and
      the sweep fails with the error of some failing deletion. */
  method PruneImages(fs: FileSystem, c: Config, listing: seq<Path>) returns (res: Outcome)
    requires ValidConfig(c)
    requires forall p <- listing :: UnderRoot(c.destRoot, p)
    modifies fs
    ensures fs.files == old(fs.files) - (PruneTargets(c, old(fs.files), listing) - fs.faults.Keys)
    ensures res == Pass <==> PruneTargets(c, old(fs.files), listing) !! fs.faults.Keys
    ensures res.Fail? ==> exists t :: t in PruneTargets(c, old(fs.files), listing) && t in fs.faults && res.error == fs.faults[t]
    ensures forall q :: UnderRoot(c.srcRoot, q) ==> (q in fs.files <==> q in old(fs.files))
  {
    ghost var files0 := fs.files;
    res := Pass;
    var i := 0;
    while i < |listing|
      invariant 0 <= i <= |listing|
      invariant forall p <- listing[..i] :: UnderRoot(c.destRoot, p)
      invariant fs.files == files0 - (PruneTargets(c, files0, listing[..i]) - fs.faults.Keys)
      invariant res == Pass <==> PruneTargets(c, files0, listing[..i]) !! fs.faults.Keys
      invariant res.Fail? ==> exists t :: t in PruneTargets(c, files0, listing[..i]) && t in fs.faults && res.error == fs.faults[t]
    {
      var p := listing[i];
      PruneTargetsSafe(c, files0, listing[..i]);
      DecisionUnaffected(c, files0, fs.files, p);
      PruneTargetsStep(c, files0, listing, i);
      if ShouldDelete(c, fs.files, p) {
        var outcome := fs.SafeUnlink(p);
        UnlinkAccumulates(files0, fs.faults, PruneTargets(c, files0, listing[..i]), p);
        if outcome.Fail? && res.Pass? {
          res := outcome;
        }
      }
      i := i + 1;
    }
    assert listing[..|listing|] == listing;
    PruneTargetsSafe(c, files0, listing);
  }
}
