/**
 * The watcher's unlink hooks: when a source image disappears, its outputs
 * are deleted at once, and the optional completion callback learns how the
 * deletions went.
 */
module UnlinkHooks {
  import opened Paths
  import opened Fs

  datatype Option<T> = None | Some(value: T)

  /** The outputs of a raster source, in the order the hook deletes them:
      the compressed raster, then its ".avif" and ".webp" variants. */
  function RasterOutputs(c: Config, srcFilePath: Path): seq<Path>
    requires UnderRoot(c.srcRoot, srcFilePath)
  {
    var destMain := MapSrcToDest(c, srcFilePath);
    [destMain, ReplaceExt(destMain, AVIF_EXT), ReplaceExt(destMain, WEBP_EXT)]
  }

  /** The raster outputs all lie in the destination tree, so the hook never
      deletes a source. */
  lemma RasterOutputsInDestTree(c: Config, srcFilePath: Path)
    requires ValidConfig(c) && UnderRoot(c.srcRoot, srcFilePath)
    ensures forall t <- RasterOutputs(c, srcFilePath) :: UnderRoot(c.destRoot, t) && !UnderRoot(c.srcRoot, t)
  {
    var destMain := MapSrcToDest(c, srcFilePath);
    ReplaceExtCommutesWithMap(c, srcFilePath, AVIF_EXT);
    ReplaceExtCommutesWithMap(c, srcFilePath, WEBP_EXT);
    var avif := ReplaceExt(destMain, AVIF_EXT);
    var webp := ReplaceExt(destMain, WEBP_EXT);
    assert UnderRoot(c.destRoot, avif) by {
      assert avif == MapSrcToDest(c, ReplaceExt(srcFilePath, AVIF_EXT));
    }
    assert UnderRoot(c.destRoot, webp) by {
      assert webp == MapSrcToDest(c, ReplaceExt(srcFilePath, WEBP_EXT));
    }
    TreesDisjoint(c, destMain);
    TreesDisjoint(c, avif);
    TreesDisjoint(c, webp);
    assert RasterOutputs(c, srcFilePath) == [destMain, avif, webp];
  }

  /** `onUnlinkRaster`.  The result is what the callback receives: `None`
      when no callback is given, otherwise `Some(Pass)` for a call without an
      argument or `Some(Fail(e))` for a call with the error `e`. */
  method OnUnlinkRaster(fs: FileSystem, c: Config, srcFilePath: Path, hasCallback: bool)
    returns (called: Option<Outcome>)
    requires UnderRoot(c.srcRoot, srcFilePath)
    modifies fs
    ensures fs.files == AfterUnlinkSeq(old(fs.files), fs.faults, RasterOutputs(c, srcFilePath)).0
    ensures called == if hasCallback then Some(AfterUnlinkSeq(old(fs.files), fs.faults, RasterOutputs(c, srcFilePath)).1) else None
    ensures Elements(RasterOutputs(c, srcFilePath)) !! fs.faults.Keys ==>
              fs.files == old(fs.files) - Elements(RasterOutputs(c, srcFilePath)) &&
              (hasCallback ==> called == Some(Pass))
  {
    var destMain := MapSrcToDest(c, srcFilePath);
    var destAvif := ReplaceExt(destMain, AVIF_EXT);
    var destWebp := ReplaceExt(destMain, WEBP_EXT);
    ghost var ts := RasterOutputs(c, srcFilePath);
    ghost var result := AfterUnlinkSeq(fs.files, fs.faults, ts);
    assert ts[1..] == [destAvif, destWebp] && ts[2..] == [destWebp] && ts[3..] == [];
    UnlinkSeqStep(fs.files, fs.faults, ts);
    var outcome := fs.SafeUnlink(destMain);
    if outcome.Pass? {
      assert result == AfterUnlinkSeq(fs.files, fs.faults, ts[1..]);
      UnlinkSeqStep(fs.files, fs.faults, ts[1..]);
      outcome := fs.SafeUnlink(destAvif);
      if outcome.Pass? {
        assert result == AfterUnlinkSeq(fs.files, fs.faults, ts[2..]);
        UnlinkSeqStep(fs.files, fs.faults, ts[2..]);
        outcome := fs.SafeUnlink(destWebp);
        if outcome.Pass? {
          assert result == AfterUnlinkSeq(fs.files, fs.faults, ts[3..]);
        }
      }
    }
    assert result == (fs.files, outcome);
    called := if hasCallback then Some(outcome) else None;
    if Elements(ts) !! fs.faults.Keys {
      UnlinkSeqNoFault(old(fs.files), fs.faults, ts);
    }
  }

  /** `onUnlinkSvg`: only the optimised copy at the mapped path is deleted. */
  method OnUnlinkSvg(fs: FileSystem, c: Config, srcFilePath: Path, hasCallback: bool)
    returns (called: Option<Outcome>)
    requires UnderRoot(c.srcRoot, srcFilePath)
    modifies fs
    ensures fs.files == AfterUnlink(old(fs.files), fs.faults, MapSrcToDest(c, srcFilePath))
    ensures called == if hasCallback then Some(UnlinkOutcome(fs.faults, MapSrcToDest(c, srcFilePath))) else None
    ensures MapSrcToDest(c, srcFilePath) !in fs.faults ==>
              fs.files == old(fs.files) - {MapSrcToDest(c, srcFilePath)} &&
              (hasCallback ==> called == Some(Pass))
  {
    var destSvg := MapSrcToDest(c, srcFilePath);
    var outcome := fs.SafeUnlink(destSvg);
    called := if hasCallback then Some(outcome) else None;
  }
}
