# Image output bookkeeping of the gulp build

This project models in Dafny how the gulp build keeps the built image tree
(`dist/assets/images`) in step with the source image tree (`src/images`),
and proves properties of that model. The code modelled is in
`gulp/gulpfile.js`:

- path arithmetic: `map_src_to_dest`, `replace_ext`, the derived-file rename
  of the format conversion, and the extension `path.parse` reports;
- `safeUnlink`, which treats a missing file as success and re-throws other
  errors;
- the watcher's unlink hooks `onUnlinkRaster` and `onUnlinkSvg`;
- the orphan sweep `pruneImages`;
- the allow-list cleanup `cleanImages`.

The file system is a class `Fs.FileSystem`:

- Its field `files` is the set of existing file paths.
- A constant map `faults` gives the paths whose deletion fails. Each maps to
  an error code other than `ENOENT`.
- A failing path stays in place whether or not it exists.

Paths are strings in one canonical form. Roots and full paths are absolute.
Segments are separated by '/'. No segment is empty, "." or "..".

Modules:

- `Paths` (paths.dfy) covers extensions and the source-to-destination
  mapping.
- `Fs` (fs.dfy) covers the file system, `safeUnlink`, a series of awaited
  unlinks, and a batch of concurrent deletions.
- `UnlinkHooks` (unlink_hooks.dfy) covers the two hooks.
- `Prune` (prune.dfy) covers `pruneImages`.
- `Cleanup` (cleanup.dfy) covers `cleanImages`.

Three behaviours of the code that a reader might expect otherwise:

- The unlink hooks do not delete concurrently. They await one `safeUnlink`
  after another inside one `try`. The first failure skips the remaining
  deletions and reaches the callback (`Fs.AfterUnlinkSeq`).
- `cleanImages` does not delete "every .jpg/.png". Its globs are
  case-sensitive and skip names that start with '.'. So "a.JPG" and
  ".hidden.jpg" survive.
- `Promise.all` in `pruneImages` rejects at the first failing deletion, not
  only after all have settled. The deletions are all issued before any of
  them settles, so every other deletion still takes place. The model states
  the final file state that results, plus the error of some failing deletion.

## Model

| member | source | states |
|---|---|---|
| Paths.ExtUnique | gulp/gulpfile.js:99 | at most one alternative of a `$`-anchored pattern whose alternatives are dot-free letter runs matches a path |
| Paths.ReplaceTrailingSpec | gulp/gulpfile.js:99 | for any list of letter alternatives, the matched trailing extension, dot included, becomes the replacement and the prefix before it is kept; a path matching no alternative comes back unchanged; the order of the alternatives is irrelevant |
| Paths.ReplaceExtSpec | gulp/gulpfile.js:98-100 | `replace_ext` rewrites a trailing .jpg/.jpeg/.png/.svg/.avif/.webp in any letter case, keeping everything before it, and leaves every other path unchanged |
| Paths.ReplaceExtOfLiteral | gulp/gulpfile.js:98-100 | a path ending in an image extension literal gets exactly that literal replaced |
| Paths.ReplaceTrailingIdempotent | gulp/gulpfile.js:99 | rewriting twice to a replacement that is itself one of the alternatives (any case) equals rewriting once |
| Paths.ReplaceExtIdempotent | gulp/gulpfile.js:98-100 | `replace_ext(replace_ext(p, x), x) == replace_ext(p, x)` for every image extension `x` such as ".avif" or ".webp" |
| Paths.DerivedNameSpec | gulp/gulpfile.js:204 | the conversion renames a trailing .jpg/.jpeg/.png (any case) to ".avif" keeping the stem, and leaves .svg/.avif/.webp and all other paths alone |
| Paths.DerivedNameIsAvifTarget | gulp/gulpfile.js:204 | with `IMG_FORMAT` set to "avif", on every renamed path and every path with no image extension, the derived name equals `replace_ext(p, ".avif")` |
| Paths.RelativeTo | gulp/gulpfile.js:94 | `path.relative` of a path inside a root is non-empty and joins back to that path |
| Paths.JoinRelative | gulp/gulpfile.js:95 | `path.join(root, rel)` lies inside the root and `path.relative` gives back `rel` |
| Paths.TreesDisjoint | gulp/gulpfile.js:82-83 | with neither root inside the other, no path lies in both the source and the destination tree |
| Paths.MapSrcToDest | gulp/gulpfile.js:93-96 | the mapped path lies under the destination root, and stripping that root gives the source's relative sub-path |
| Paths.MapSrcToDestInjective | gulp/gulpfile.js:93-96 | distinct sources never share an output path |
| Paths.ReplaceTrailingJoin | gulp/gulpfile.js:95-99 | rewriting the extension of a path joined under a root is rewriting the extension of its relative part |
| Paths.ReplaceExtCommutesWithMap | gulp/gulpfile.js:93-100 | `map_src_to_dest(replace_ext(p, x)) == replace_ext(map_src_to_dest(p), x)`, and the rewritten source still lies in the source tree |
| Paths.DerivedOutputIsUnlinkTarget | gulp/gulpfile.js:204 | the derived file of a raster source, mapped to the destination, is exactly the ".avif" path the raster unlink hook deletes |
| Paths.ExtStart | gulp/gulpfile.js:356 | the extension `path.parse` reports starts at a '.' that follows a character of the final segment and is the last '.' of that segment; it is empty exactly when no such '.' exists |
| Paths.ParsedExtMatches | gulp/gulpfile.js:356-365 | on a plain relative path, `path.parse(rel).ext` lower-cased is ".e" exactly when the path matches `\.e$` case-insensitively, and the stem ends right before that dot |
| Paths.ExtStartOfStemAndExt | gulp/gulpfile.js:356-357 | for `stem + x` with `x` a dotted extension, `path.parse` reports the extension `x` and the stem `stem` |
| Fs.FileSystem.Unlink | gulp/gulpfile.js:87 | `fsp.unlink`: a failing path rejects with its error and nothing changes; an existing path is removed; a missing path rejects with ENOENT |
| Fs.FileSystem.SafeUnlink | gulp/gulpfile.js:85-91 | a missing target succeeds with no change; otherwise the target is removed and every other path is unchanged; an error other than ENOENT is reported with no change |
| Fs.SafeUnlinkIdempotent | gulp/gulpfile.js:85-91 | a repeated `safeUnlink` changes nothing more; afterwards the target is gone unless it fails; other paths are unchanged; the reported error is never ENOENT |
| Fs.UnlinkSeqNoFault | gulp/gulpfile.js:107-110 | with no failing target, a series of awaited `safeUnlink` calls removes exactly its targets and succeeds |
| Fs.UnlinkSeqFirstFault | gulp/gulpfile.js:107-112 | the first failing target of the series decides: the targets before it are removed, none after it is attempted, and its error is reported |
| Fs.UnlinkSeqOnlyDeletes | gulp/gulpfile.js:107-112 | the series never creates a file, never deletes a path that is not one of its targets, and never reports ENOENT |
| Fs.FileSystem.DeleteAll | gulp/gulpfile.js:340 | a batch of concurrent deletions removes every non-failing target and nothing else; it succeeds exactly when no target fails, otherwise it reports the error of a failing target |
| UnlinkHooks.RasterOutputsInDestTree | gulp/gulpfile.js:104-106 | the three targets of the raster hook lie in the destination tree, never in the source tree |
| UnlinkHooks.OnUnlinkRaster | gulp/gulpfile.js:102-114 | the new state and the callback argument are those of the series destMain, destMain→.avif, destMain→.webp; with no failing target exactly these three are removed and the callback gets no error; without a callback nothing is reported |
| UnlinkHooks.OnUnlinkSvg | gulp/gulpfile.js:116-124 | only the mapped path is removed (unless it fails); the callback gets no error or that path's error |
| Prune.SourceOf | gulp/gulpfile.js:359 | the source path at the same relative sub-path lies in the source tree and maps back to the destination file |
| Prune.ShouldDeleteMatched | gulp/gulpfile.js:355-372 | for a listed file with a matched image extension `e`, the decision is the rule that `e` selects, applied to the stem before ".e" |
| Prune.DecisionUnaffected | gulp/gulpfile.js:359-371 | the existence checks only look inside the source tree, so files elsewhere (the deleted destination files among them) never change a decision |
| Prune.PruneExactRule | gulp/gulpfile.js:370-371 | a listed destination file whose extension is .jpg/.jpeg/.png/.svg in any letter case is deleted exactly when no existing source maps onto it |
| Prune.PruneDerivedRule | gulp/gulpfile.js:360-369 | a listed destination file whose extension is .avif/.webp in any letter case is deleted exactly when no existing source maps onto its stem with a lower-case .jpg, .jpeg or .png |
| Prune.PruneOtherKept | gulp/gulpfile.js:364-372 | a file without one of the six image extensions is never deleted |
| Prune.PruneTargetsSafe | gulp/gulpfile.js:354-376 | every target is a listed destination file outside the source tree, and carries an image extension |
| Prune.PruneOrderIndependent | gulp/gulpfile.js:354-379 | the targets depend only on which files are listed, not on their order or repetitions |
| Prune.KeepsOutputsOfLiveSource | gulp/gulpfile.js:355-372 | while a lower-case .jpg/.jpeg/.png source exists, none of the three outputs the raster unlink hook would delete for it is pruned |
| Prune.PruneImages | gulp/gulpfile.js:347-380 | the new state is the old one minus the non-failing targets, so nothing is created and the source tree is unchanged; the sweep succeeds exactly when no target fails, otherwise it reports the error of a failing target |
| Cleanup.ToPosixSpec | gulp/gulpfile.js:337 | the conversion leaves no backslash, keeps every other character in place, and is idempotent |
| Cleanup.ExcludedIsAllowList | gulp/gulpfile.js:328-337 | a negated pattern excludes exactly the relative paths in the allow-list |
| Cleanup.CleanAllowList | gulp/gulpfile.js:325-341 | afterwards no selected .jpg/.png remains under the destination root unless it is allow-listed or its deletion failed; every allow-listed file and every file outside the destination tree remains |
| Cleanup.CleanKeepsOtherFormats | gulp/gulpfile.js:334-336 | a .jpeg, .avif, .webp or .svg file (any case) is never selected |
| Cleanup.AllowListIsExactPath | gulp/gulpfile.js:326-330 | the top-level "sora.jpg" is kept while "top/sora.jpg" is deleted |
| Cleanup.CleanImages | gulp/gulpfile.js:325-341 | the new state is the old one minus the non-failing selected files; the task succeeds exactly when no selected file fails, otherwise it reports the error of a failing one |

## Left out

- The streaming build tasks (`css`, `compressImages`, `convertToDerived` apart from its rename, `compressSVG`, `htmlCopy`, `jsCopy`) are stream plumbing around opaque libraries. All image encoding and its quality settings are binary codecs.
- `serve`, `reload`, `watchFiles` and the plumber/notify error reporting are I/O and event wiring. The watcher's unlink events are only "the hook is called with the removed path".
- `clean` is one call to a deletion library over the whole destination tree.
- Glob enumeration in `pruneImages` is not modelled. The listed destination files are an input sequence. Lemmas about extensions assume plain relative paths (no segment starts with '.'), as a glob without the `dot` option yields. Only the choice of rule lower-cases the extension; the existence checks compare exact names. Which names are listed depends on the glob's case sensitivity, which depends on the platform; the rule lemmas apply to whatever the listing contains.
- In `cleanImages`, the library's glob is modelled as a predicate on relative paths: a case-sensitive ".jpg"/".png" ending on a plain path. The allow-list entries are matched as literal paths; glob metacharacters in them are not interpreted. Directories whose names end in ".jpg" are not modelled, since the file system holds files only.
- Backslash separators, Windows paths and `windowsPathsNoEscape` are not modelled: all paths are in one canonical '/' form, and `path.join` over such paths is concatenation with '/'.
- Paths outside the roots: the hooks require the removed path to lie under the source root, and `pruneImages` requires the listed files to lie under the destination root. `path.relative` would otherwise produce ".." segments.
- `path.parse` differs from the model on the base name "..": Node reports no extension, the model reports ".". No listed file has that name.
- `path.parse` also ignores a trailing '/', so Node reports ".jpg" for "a.jpg/" where the model reports no extension. Listed files never end in '/'.
- The file system is case-sensitive: "a.jpg" and "a.JPG" are different files, and every existence check compares exact strings. On a case-insensitive file system `existsSync` would also find a source that differs only in case.
- The canonical path form is assumed, not enforced: the hooks only require the removed path to start with the source root and a '/'. A path with "." or ".." segments or a doubled '/' is taken literally, where `path.relative` and `path.join` would normalise it.
- Case folding is ASCII only. The `/i` flag without the `u` flag never folds a non-ASCII character onto an ASCII one. `toLowerCase` does fold some non-ASCII characters, but never so that the result equals one of the six extensions compared.
- A `replace_ext` replacement containing '$' is excluded by a precondition. `String.prototype.replace` would expand it, and every caller passes a plain extension.
- `existsSync` on a directory is not modelled: the file system holds files only.
- Timing in `pruneImages` and `cleanImages` is not modelled: which failing deletion is reported first depends on when each settles. For `pruneImages` the model reports the first failure in listing order; `cleanImages` has no listing, and the model picks any failing target. The contracts only promise some failing deletion's error.
- A callback that itself throws is not modelled. It would re-enter the `catch` and be called a second time.
- These definitions carry no contract of their own; the listed members state their properties:
  - `ReplaceTrailing`, `ReplaceExt` and `DerivedName`: the `Paths` lemmas on them.
  - `LowerStr`: `Paths.ParsedExtMatches` and `Paths.ReplaceExtSpec`.
  - `Join`: `Paths.JoinRelative` and `Paths.RelativeTo`.
  - `ParsedExt`: `Paths.ParsedExtMatches` and `Paths.ExtStartOfStemAndExt`.
  - `AfterUnlink` and `UnlinkOutcome`: `Fs.FileSystem.SafeUnlink` and `Fs.SafeUnlinkIdempotent`.
  - `AfterUnlinkSeq`: `Fs.UnlinkSeqNoFault`, `Fs.UnlinkSeqFirstFault` and `Fs.UnlinkSeqOnlyDeletes`.
  - `RasterOutputs`: `UnlinkHooks.RasterOutputsInDestTree`.
  - `ShouldDelete` and `HasRasterSource`: the `Prune` rule lemmas.
  - `PruneTargets`: `Prune.PruneTargetsSafe` and `Prune.PruneOrderIndependent`.
  - `CleanTargets` and `ToPosix`: the `Cleanup` lemmas.
