/**
 * The control flow of compareMaps.py's main: the input check that reads both
 * projections, the choice of source and mask rasters, the clip, the shape
 * comparison and the single corrective reclip, and the names of the outputs.
 *
 * What the program asks of the world is passed in as functions: whether a
 * path exists, the projection a raster reports, and the shape of a band read
 * from a raster. The external clipper is recorded as a log of ClipRequests;
 * the path each request produces is the one clipMap computes.
 */
module CompareMaps {
  import opened Naming
  import opened Errors

  /** numpy's shape of a band read as a two-dimensional array. */
  datatype Shape = Shape(rows: nat, cols: nat) {
    /** numpy's `size`: the number of pixels. */
    function Size(): nat { rows * cols }
  }

  /** One call of clipMap: clip srcMap to the extent of mskMap, writing under outputDir. */
  datatype ClipRequest = ClipRequest(srcMap: string, mskMap: string, srcBand: int, mskBand: int, outputDir: string) {
    /** The path clipMap returns and the clipper writes to. */
    function Output(): string {
      ClippedPath(outputDir, srcMap, mskMap)
    }
  }

  /** A path main ends up with: the input path as it was, or the output of one of the clips. */
  ghost predicate KeptOrClipped(path: string, input: string, clips: seq<ClipRequest>) {
    path == input || exists k :: 0 <= k < |clips| && path == clips[k].Output()
  }

  /** The two map paths main works on. */
  datatype MapPair = MapPair(mapPath1: string, mapPath2: string)

  /** What a completed run writes, and the projection it writes it with. */
  datatype Outputs = Outputs(maps: MapPair, projection: string, diffMapPath: string, scatterPath: string)

  /**
   * The loop that checks both inputs exist and reads their projections, in
   * order; it stops at the first missing path and reports that path.
   */
  method ReadProjections(mapPath1: string, mapPath2: string,
                         pathExists: string -> bool, projectionOf: string -> string)
    returns (r: Result<seq<string>>)
    ensures r.Success? <==> pathExists(mapPath1) && pathExists(mapPath2)
    ensures r.Success? ==> r.value == [projectionOf(mapPath1), projectionOf(mapPath2)]
    ensures r.Failure? ==> r.error == MissingMap(if pathExists(mapPath1) then mapPath2 else mapPath1)
    ensures r.Failure? ==> !pathExists(r.error.path)
  {
    var paths := [mapPath1, mapPath2];
    assert paths[0] == mapPath1 && paths[1] == mapPath2;
    var projections: seq<string> := [];
    var i := 0;
    while i < |paths|
      invariant 0 <= i <= |paths|
      invariant forall k :: 0 <= k < i ==> pathExists(paths[k])
      invariant |projections| == i
      invariant forall k :: 0 <= k < i ==> projections[k] == projectionOf(paths[k])
    {
      if !pathExists(paths[i]) {
        return Failure(MissingMap(paths[i]));
      }
      projections := projections + [projectionOf(paths[i])];
      i := i + 1;
    }
    return Success(projections);
  }

  /** sys.exit takes at most one argument, the exit status or message. */
  const SysExitMaxArgs: nat := 1

  /**
   * The arguments line 62 passes to sys.exit: the message is split into three
   * pieces, and its middle one is mapPath1 whichever path was found missing.
   */
  function ExitArgsAsWritten(mapPath1: string, missing: string): (args: seq<string>)
    ensures |args| == 3 && args[1] == mapPath1
  {
    ["\nMap path does not exist: '", mapPath1, "'"]
  }

  /**
   * The exit at line 62 as written: sys.exit receives more arguments than it
   * accepts, so Python raises TypeError and no message is printed.
   */
  function MissingMapExitAsWritten(mapPath1: string, missing: string): (f: RunError)
    ensures f.BadExitCall? && f.argCount > SysExitMaxArgs
  {
    BadExitCall(|ExitArgsAsWritten(mapPath1, missing)|)
  }

  /**
   * Whenever map1 exists and map2 does not, line 62 as written fails on its
   * call to sys.exit, and the path among its arguments is the existing map1:
   * the arguments are those it would pass were map1 the missing one. The
   * corrected exit (ReadProjections) reports MissingMap(mapPath2) here.
   */
  lemma MissingMapExitAsWrittenMisreports(mapPath1: string, mapPath2: string, pathExists: string -> bool)
    requires pathExists(mapPath1) && !pathExists(mapPath2)
    ensures var args := ExitArgsAsWritten(mapPath1, mapPath2);
            && args[1] == mapPath1 && pathExists(args[1]) && args[1] != mapPath2
            && args == ExitArgsAsWritten(mapPath1, mapPath1)
    ensures MissingMapExitAsWritten(mapPath1, mapPath2).BadExitCall?
  {
  }

  /**
   * What a successful negotiation of lines 77-136 issues and ends with. p1
   * and p2 are the paths after the first clip, which replaces only the
   * non-boundary map's path; the shapes then decide whether a second clip
   * happens, which raster is its source, and which path it replaces.
   */
  ghost predicate Negotiated(mapPath1: string, mapPath2: string, outputDir: string, band1: int, band2: int,
                             boundaryMap: int, readShape: (string, int) -> Shape,
                             clips: seq<ClipRequest>, maps: MapPair)
  {
    && (boundaryMap == 1 || boundaryMap == 2)
    && 1 <= |clips| <= 2
    // the first clip cuts the non-boundary map to the boundary map; bands travel with their maps
    && clips[0] == (if boundaryMap == 1 then ClipRequest(mapPath2, mapPath1, band2, band1, outputDir)
                    else ClipRequest(mapPath1, mapPath2, band1, band2, outputDir))
    && var p1 := if boundaryMap == 1 then mapPath1 else clips[0].Output();
       var p2 := if boundaryMap == 1 then clips[0].Output() else mapPath2;
       var s1, s2 := readShape(p1, band1), readShape(p2, band2);
       // a second clip happens exactly when the shapes differ
       && (|clips| == 1 <==> s1 == s2)
       && (|clips| == 1 ==> maps == MapPair(p1, p2))
       // the corrective clip takes the strictly larger raster as source, map2 on a tie
       && (|clips| == 2 ==>
             clips[1] == if s1.Size() > s2.Size() then ClipRequest(p1, p2, band1, band2, outputDir)
                         else ClipRequest(p2, p1, band2, band1, outputDir))
       // line 133 decides by comparing the mask's path with map1's
       && (|clips| == 2 ==>
             maps == if clips[1].mskMap == p1 then MapPair(p1, clips[1].Output())
                     else MapPair(clips[1].Output(), p2))
       // so, with two distinct paths, the mask keeps its path and the source is replaced
       && (|clips| == 2 && p1 != p2 ==>
             maps == if clips[1].srcMap == p1 then MapPair(clips[1].Output(), p2)
                     else MapPair(p1, clips[1].Output()))
  }

  /**
   * Lines 77-136: pick the mask (boundary) and source roles, clip the source
   * to the mask, compare the two band shapes and, on a mismatch, clip once
   * more with the larger raster as source. readShape(path, band) is the shape
   * of that band as numpy reads it.
   */
  method Negotiate(mapPath1: string, mapPath2: string, outputDir: string, band1: int, band2: int,
                   boundaryMap: int, readShape: (string, int) -> Shape)
    returns (r: Result<MapPair>, clips: seq<ClipRequest>)
    // a selector other than 1 or 2 stops the run before any clip
    ensures r.Failure? <==> boundaryMap != 1 && boundaryMap != 2
    ensures r.Failure? ==> r.error == BadBoundaryMap(boundaryMap) && clips == []
    // at most two clips
    ensures r.Success? ==> 1 <= |clips| <= 2
    // the first clip cuts the non-boundary map to the boundary map; bands travel with their maps
    ensures boundaryMap == 1 ==> clips[0] == ClipRequest(mapPath2, mapPath1, band2, band1, outputDir)
    ensures boundaryMap == 2 ==> clips[0] == ClipRequest(mapPath1, mapPath2, band1, band2, outputDir)
    // the paths after the first clip, the reclip and the final paths
    ensures r.Success? ==> Negotiated(mapPath1, mapPath2, outputDir, band1, band2, boundaryMap, readShape, clips, r.value)
    // every final path is an input kept as it was or the output of a clip
    ensures r.Success? ==>
      KeptOrClipped(r.value.mapPath1, mapPath1, clips) && KeptOrClipped(r.value.mapPath2, mapPath2, clips)
  {
    var path1, path2 := mapPath1, mapPath2;
    var srcMap: string, mskMap: string, srcBand: int, mskBand: int;
    if boundaryMap == 1 {
      mskMap, srcMap := mapPath1, mapPath2;
      mskBand, srcBand := band1, band2;
    } else if boundaryMap == 2 {
      mskMap, srcMap := mapPath2, mapPath1;
      mskBand, srcBand := band2, band1;
    } else {
      return Failure(BadBoundaryMap(boundaryMap)), [];
    }

    var request := ClipRequest(srcMap, mskMap, srcBand, mskBand, outputDir);
    clips := [request];
    var clippedMapPath := request.Output();
    if boundaryMap == 1 {
      path2 := clippedMapPath;
    } else {
      path1 := clippedMapPath;
    }

    ghost var p1, p2 := path1, path2;
    assert p1 == if boundaryMap == 1 then mapPath1 else clips[0].Output();
    assert p2 == if boundaryMap == 1 then clips[0].Output() else mapPath2;

    assert clips[0].Output() == clippedMapPath;
    assert KeptOrClipped(path1, mapPath1, clips) && KeptOrClipped(path2, mapPath2, clips);

    var shape1, shape2 := readShape(path1, band1), readShape(path2, band2);
    if shape1 != shape2 {
      if shape1.Size() > shape2.Size() {
        srcMap, mskMap := path1, path2;
        srcBand, mskBand := band1, band2;
      } else {
        srcMap, mskMap := path2, path1;
        srcBand, mskBand := band2, band1;
      }
      ghost var firstClipped := clippedMapPath;
      request := ClipRequest(srcMap, mskMap, srcBand, mskBand, outputDir);
      assert request == if shape1.Size() > shape2.Size() then ClipRequest(p1, p2, band1, band2, outputDir)
                        else ClipRequest(p2, p1, band2, band1, outputDir);
      clips := clips + [request];
      clippedMapPath := request.Output();
      if mskMap == path1 {
        path2 := clippedMapPath;
      } else {
        path1 := clippedMapPath;
      }
      assert clips[0].Output() == firstClipped && clips[1].Output() == clippedMapPath;
      assert KeptOrClipped(path1, mapPath1, clips) && KeptOrClipped(path2, mapPath2, clips);
    }
    r := Success(MapPair(path1, path2));
  }

  /**
   * main up to the names of its outputs: the input check, the negotiation,
   * then the difference raster and scatter image named from the final paths.
   * The projection written out is the one read from the original mapPath1.
   */
  method Run(mapPath1: string, mapPath2: string, outputDir: string, band1: int, band2: int,
             boundaryMap: int, pathExists: string -> bool, projectionOf: string -> string,
             readShape: (string, int) -> Shape)
    returns (r: Result<Outputs>, clips: seq<ClipRequest>)
    ensures r.Success? <==> pathExists(mapPath1) && pathExists(mapPath2) && (boundaryMap == 1 || boundaryMap == 2)
    // the missing-file check comes first, then the selector check, and neither clips
    ensures r.Failure? ==> clips == []
    ensures !(pathExists(mapPath1) && pathExists(mapPath2)) ==>
              r == Failure(MissingMap(if pathExists(mapPath1) then mapPath2 else mapPath1)) && !pathExists(r.error.path)
    ensures pathExists(mapPath1) && pathExists(mapPath2) && boundaryMap != 1 && boundaryMap != 2 ==>
              r == Failure(BadBoundaryMap(boundaryMap))
    ensures r.Success? ==>
      && Negotiated(mapPath1, mapPath2, outputDir, band1, band2, boundaryMap, readShape, clips, r.value.maps)
      && r.value.projection == projectionOf(mapPath1)
      && r.value.diffMapPath == DiffPath(outputDir, r.value.maps.mapPath1, r.value.maps.mapPath2)
      && r.value.scatterPath == ScatterPath(outputDir, r.value.maps.mapPath1, r.value.maps.mapPath2)
      && KeptOrClipped(r.value.maps.mapPath1, mapPath1, clips)
      && KeptOrClipped(r.value.maps.mapPath2, mapPath2, clips)

  {
    var projections := ReadProjections(mapPath1, mapPath2, pathExists, projectionOf);
    if projections.Failure? {
      return Failure(projections.error), [];
    }
    var negotiated;
    negotiated, clips := Negotiate(mapPath1, mapPath2, outputDir, band1, band2, boundaryMap, readShape);
    if negotiated.Failure? {
      return Failure(negotiated.error), clips;
    }
    var maps := negotiated.value;
    r := Success(Outputs(maps, projections.value[0],
                         DiffPath(outputDir, maps.mapPath1, maps.mapPath2),
                         ScatterPath(outputDir, maps.mapPath1, maps.mapPath2)));
  }
}
