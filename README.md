# compareMaps: extent negotiation and output naming

`compareMaps.py` compares two georeferenced rasters. It clips them to a common extent, writes a
scaled difference raster, and saves a scatterplot of corresponding pixels. This project models
the parts of the script that make decisions:

- **Output naming.** The clipped raster, the difference raster and the scatter image are named
  from the base name and extension of the input paths. `PosixPath` models the Python helpers the
  script relies on: `str.rfind`, `os.path.basename`, `os.path.splitext` and `os.path.join`. In
  `splitext`, leading dots of a file name never start an extension. `Naming` builds the three
  output paths and proves what their names are made of.
- **Input check.** The loop over both map paths checks that each exists and reads its projection.
  It stops at the first missing path (`CompareMaps.ReadProjections`).
- **Extent negotiation.** `main` picks the mask map (the boundary) and the source map from
  `boundarymap`. It clips the source to the mask and replaces the source's path with the clipped
  path. It then compares the two band shapes. On a mismatch it makes one corrective pass: the
  raster with more pixels becomes the source, and the clip is issued again
  (`CompareMaps.Negotiate`).
- **The run up to its outputs.** `CompareMaps.Run` composes these steps and names the difference
  raster and scatter image from the final paths.

The world outside the script is passed in as functions:

- `pathExists(path)`: whether a file exists;
- `projectionOf(path)`: the projection GDAL reports for a raster;
- `readShape(path, band)`: the numpy shape of a band read as an array.

The external clipper is represented by the list of `ClipRequest`s the run issues. Each request's
`Output()` is the path `clipMap` computes and returns.

## Model

| member | source | states |
|---|---|---|
| `PosixPath.RFind` | compareMaps.py:33-35 | the result is -1 or an index holding the character, and no later index holds it (the last occurrence) |
| `PosixPath.Basename` | compareMaps.py:33-35 | the base name has no `/`, is a suffix of the path, and is either the whole path or preceded by `/` |
| `PosixPath.SplitExt` | compareMaps.py:33-35 | root + extension is the input; the extension is empty or one dot followed by no dot and no `/` |
| `PosixPath.ExtensionCharacterised` | compareMaps.py:33-35 | splitext finds an extension exactly when a dot follows a non-dot character of the final component (leading dots do not count) |
| `PosixPath.Join` | compareMaps.py:37 | a relative name keeps the directory as a prefix; an absolute name replaces it |
| `PosixPath.JoinDirectlyBelow` | compareMaps.py:37 | a relative name goes directly below the directory: the directory, at most one `/`, then the name, with a `/` before the name whenever the directory is not empty |
| `PosixPath.JoinBasename` | compareMaps.py:37 | the base name of directory joined with a plain name is that name |
| `Naming.Stem` | compareMaps.py:33-35 | the stem has no `/`, and stem + extension is the base name |
| `Naming.Ext` | compareMaps.py:34 | the extension has no `/` and is empty or one dot followed by no dot |
| `Naming.ClippedPathName` | compareMaps.py:33-37 | the clipped path is outputDir, at most one `/`, then its base name; its base name is source stem + `_clippedto_` + mask stem + source extension |
| `Naming.ClippedPathKeepsExtension` | compareMaps.py:33-37 | the clipped raster has the source's extension and the stem source stem + `_clippedto_` + mask stem (for an extension-less source, while the mask stem holds no dot) |
| `Naming.DiffPathName` | compareMaps.py:163-166 | the difference path is outputDir, at most one `/`, then its base name; its base name is map1 stem + `_minus_` + map2 stem + map1 extension |
| `Naming.DiffPathKeepsExtension` | compareMaps.py:163-166 | the difference raster has map1's extension and the stem map1 stem + `_minus_` + map2 stem (for an extension-less map1, while map2's stem holds no dot) |
| `Naming.DiffPathAsWritten` | compareMaps.py:166 | as written, building the difference path fails on the unbound name `srcMapExt` |
| `Naming.ScatterPathName` | compareMaps.py:186-188 | the scatter path is outputDir, at most one `/`, then its base name; its base name is map1 stem + `_vs_` + map2 stem + `_scatter.png` |
| `Naming.ScatterPathIsPng` | compareMaps.py:186-188 | the scatter image always has extension `.png`, and its stem is map1 stem + `_vs_` + map2 stem + `_scatter` |
| `CompareMaps.ReadProjections` | compareMaps.py:59-65 | succeeds exactly when both paths exist and then returns their projections in order; otherwise it reports the first missing path, which does not exist |
| `CompareMaps.ExitArgsAsWritten` | compareMaps.py:62 | line 62 passes sys.exit three arguments, the middle one being mapPath1 |
| `CompareMaps.MissingMapExitAsWritten` | compareMaps.py:62 | as written, the exit call passes more arguments than sys.exit accepts, so it fails with TypeError instead of printing a message |
| `CompareMaps.MissingMapExitAsWrittenMisreports` | compareMaps.py:60-62 | whenever map1 exists and map2 does not, line 62 as written fails on its exit call, and its path argument is the existing map1, exactly as if map1 were the missing one |
| `CompareMaps.Negotiate` | compareMaps.py:77-136 | fails with no clip exactly when boundarymap is not 1 or 2; boundarymap 1 makes map1/band1 the mask and map2/band2 the source, and 2 mirrors this; the first clip replaces only the source's path; a second clip happens exactly when the band shapes then differ, with the strictly larger raster as source (map2 on a tie) and bands travelling with their maps; its output replaces map2 when the mask's path equals map1's and map1 otherwise, so with distinct paths the mask keeps its path; at most two clips; every final path is its input or a clip output |
| `CompareMaps.Run` | compareMaps.py:54-188 | a missing input stops the run before any clip, reporting the first missing path; then a bad boundarymap stops it; otherwise the clips and final map paths are exactly those of the negotiation (`Negotiated`), the projection is the one read from the original map1, and the difference and scatter paths are named from those final paths |

## Findings

| source | as written | input that shows it | evidently intended | confidence | as-written member | corrected member |
|---|---|---|---|---|---|---|
| compareMaps.py:166 | the difference path uses `srcMapExt`, a local of `clipMap` that `main` never binds, so Python raises NameError there and no difference raster, metadata or scatter image is written | any run that reaches line 166, e.g. boundarymap 1 with matching shapes | map1's extension, as in `<map1>_minus_<map2><ext>` | not executed; high, unless a star import from `lthacks` or `intersectMask` happens to bind `srcMapExt` | `Naming.DiffPathAsWritten` | `Naming.DiffPathKeepsExtension` |
| compareMaps.py:62 | the exit message names `mapPath1` whichever path is missing; the call also passes three arguments to `sys.exit`, which accepts at most one, so Python raises TypeError instead of printing it (or NameError first, since line 18 does not import `sys` unless a star import at lines 19-20 binds it) | mapPath1 = `a.tif` exists, mapPath2 = `b.tif` does not | name the path that is missing | not executed; high | `CompareMaps.MissingMapExitAsWritten` | `CompareMaps.ReadProjections` |

The rest of the model uses the corrected members. `Run` reports the missing path and names the
difference raster with map1's extension.

Points where the code's order or choice is easy to misread:

- The existence check and both projection reads (lines 59-65) come before the `boundarymap` test
  (lines 77-92), so an invalid `boundarymap` is reported only after both files have been opened.
  `Run` keeps that order.
- The corrective clip takes the raster with strictly more pixels as its source, and map2 on a tie
  (lines 114-128).
- Line 133 decides which path to replace by comparing the mask's path with map1's path as
  strings, not by remembering which map was the source. This differs from "the mask keeps its
  path" only when the two paths are equal after the first clip. `Negotiate` states the literal
  rule and, for distinct paths, the mask-kept reading.

## Left out

- GDAL raster I/O (`gdal.Open`, `GetProjection`, `GetRasterBand`, `ReadAsArray`,
  `GetGeoTransform`, `GetDriverByName`, the band data type). It is foreign library code. Existence,
  projections and band shapes are function parameters. A band read twice from the same path is
  taken to have the same shape.
- `saveArrayAsRaster` and `createMetadata`. They come from `lthacks`, which is not part of this
  model.
- The `intersectMask` subprocess (lines 39-49): the command string, the printed messages and the
  ignored return code. Each clip is recorded as a `ClipRequest`, and its result is the path
  `clipMap` returns. A failed clip is therefore not represented.
- `os.makedirs` of the output directory (lines 29-31). It is filesystem I/O.
- The scaled difference `map1 * scale1 - map2 * scale2` (line 154) and the scatter arrays
  (lines 177-178). This is floating-point numpy work. Because of that, the model does not decide
  whether line 154 succeeds when the final shapes still differ. numpy broadcasting accepts some
  unequal shapes and rejects others.
- Matplotlib plotting and saving (lines 181-191), and docopt parsing with `int`/`float`
  conversion of the options (lines 193-206). They are library calls.
- The prints of the two band shapes (lines 152-153). They are console output.
- The commented-out projection-equality check (lines 67-72). It is dead code.
