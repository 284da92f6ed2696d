/**
 * The file names compareMaps.py derives from its input paths: the clipped
 * raster written by the clipper (compareMaps.py:33-37), the difference
 * raster (:163-166) and the scatter image (:186-188).
 */
module Naming {
  import opened PosixPath
  import opened Errors

  /** The markers the program puts between and after the stems of its output names. */
  const ClippedTag: string := "_clippedto_"
  const MinusTag: string := "_minus_"
  const VsTag: string := "_vs_"
  const ScatterSuffix: string := "_scatter"
  const PngExt: string := ".png"

  /** Text that can sit inside a file name without ending it or adding a dot. */
  predicate IsTag(t: string) {
    |t| > 0 && Sep !in t && ExtSep !in t
  }

  lemma MarkersAreTags()
    ensures IsTag(ClippedTag) && IsTag(MinusTag) && IsTag(VsTag) && IsTag(ScatterSuffix)
    ensures |PngExt| > 0 && PngExt[0] == ExtSep && ExtSep !in PngExt[1..] && Sep !in PngExt
  {
  }

  /** os.path.splitext(os.path.basename(p))[0]: the base name without its extension. */
  function Stem(p: string): (s: string)
    ensures Sep !in s
    ensures s + Ext(p) == Basename(p)
  {
    var b := Basename(p);
    assert forall i :: 0 <= i < |SplitExt(b).0| ==> SplitExt(b).0[i] == b[i];
    SplitExt(b).0
  }

  /** os.path.splitext(os.path.basename(p))[1]: empty, or a dot followed by no dot. */
  function Ext(p: string): (e: string)
    ensures Sep !in e
    ensures e == [] || (e[0] == ExtSep && ExtSep !in e[1..])
  {
    SplitExt(Basename(p)).1
  }

  /** A path without an extension has its whole base name as stem, which splits no further. */
  lemma StemWithoutExtension(p: string)
    ensures Ext(p) == [] ==> SplitExt(Stem(p)).1 == []
  {
    assert Stem(p) + Ext(p) == Basename(p);
  }

  /** Stem and Ext read off a path whose base name is known to split a given way. */
  lemma StemAndExtOf(path: string, name: string, stem1: string, tag: string, stem2: string, ext: string)
    requires Basename(path) == name && name == stem1 + tag + stem2 + ext
    requires Sep !in stem1 && IsTag(tag) && Sep !in stem2 && Sep !in ext
    requires ext == [] || (ext[0] == ExtSep && ExtSep !in ext[1..])
    requires ext == [] ==> SplitExt(stem1).1 == [] && ExtSep !in stem2
    ensures Stem(path) == stem1 + tag + stem2 && Ext(path) == ext
  {
    TaggedNameSplits(stem1, tag, stem2, ext);
  }

  /** Pieces without a separator make a name without one. */
  lemma PlainName(stem1: string, tag: string, stem2: string, ext: string)
    requires Sep !in stem1 && IsTag(tag) && Sep !in stem2 && Sep !in ext
    ensures Sep !in stem1 + tag + stem2 + ext
  {
    NotInConcat(Sep, stem1, tag);
    NotInConcat(Sep, stem1 + tag, stem2);
    NotInConcat(Sep, stem1 + tag + stem2, ext);
  }

  /**
   * A name built as stem1 + tag + stem2 + ext, with a tag that starts with a
   * character other than a dot and holds no dot, splits back into
   * stem1 + tag + stem2 and ext: when ext is empty this needs stem1 to have
   * no extension and stem2 to hold no dot.
   */
  lemma TaggedNameSplits(stem1: string, tag: string, stem2: string, ext: string)
    requires Sep !in stem1 && IsTag(tag) && Sep !in stem2 && Sep !in ext
    requires ext == [] || (ext[0] == ExtSep && ExtSep !in ext[1..])
    requires ext == [] ==> SplitExt(stem1).1 == [] && ExtSep !in stem2
    ensures SplitExt(stem1 + tag + stem2 + ext) == (stem1 + tag + stem2, ext)
  {
    var stem := stem1 + tag + stem2;
    PlainName(stem1, tag, stem2, []);
    assert stem + [] == stem;
    if ext == [] {
      NotInConcat(Sep, tag, stem2);
      NotInConcat(ExtSep, tag, stem2);
      NoExtensionKept(stem1, tag + stem2);
      assert stem1 + (tag + stem2) == stem;
      assert stem + ext == stem;
    } else {
      assert stem[|stem1|] == tag[0];
      SplitAtFinalDot(stem, ext);
    }
  }

  /**
   * The path the clipper writes: under outputDir, named by the source's stem,
   * ClippedTag, the mask's stem and the source's extension.
   */
  function ClippedPath(outputDir: string, srcMap: string, mskMap: string): string
  {
    Join(outputDir, Stem(srcMap) + ClippedTag + Stem(mskMap) + Ext(srcMap))
  }

  /**
   * The clipped raster lies under outputDir; its base name is the source's stem,
   * ClippedTag, the mask's stem and the source's extension.
   */
  lemma ClippedPathName(outputDir: string, srcMap: string, mskMap: string)
    ensures var path := ClippedPath(outputDir, srcMap, mskMap);
            |outputDir| <= |path| && path[..|outputDir|] == outputDir
    ensures |outputDir| + |Stem(srcMap) + ClippedTag + Stem(mskMap) + Ext(srcMap)| <= |ClippedPath(outputDir, srcMap, mskMap)| <= |outputDir| + 1 + |Stem(srcMap) + ClippedTag + Stem(mskMap) + Ext(srcMap)|
    ensures Basename(ClippedPath(outputDir, srcMap, mskMap)) == Stem(srcMap) + ClippedTag + Stem(mskMap) + Ext(srcMap)
  {
    var name := Stem(srcMap) + ClippedTag + Stem(mskMap) + Ext(srcMap);
    MarkersAreTags();
    PlainName(Stem(srcMap), ClippedTag, Stem(mskMap), Ext(srcMap));
    JoinBasename(outputDir, name);
    JoinDirectlyBelow(outputDir, name);
  }

  /**
   * The clipped raster keeps the source's extension, and its stem starts with
   * the source's stem and ends with the mask's; an extension-less source stays
   * extension-less only while the mask's stem holds no dot.
   */
  lemma ClippedPathKeepsExtension(outputDir: string, srcMap: string, mskMap: string)
    requires Ext(srcMap) != [] || ExtSep !in Stem(mskMap)
    ensures Ext(ClippedPath(outputDir, srcMap, mskMap)) == Ext(srcMap)
    ensures Stem(ClippedPath(outputDir, srcMap, mskMap)) == Stem(srcMap) + ClippedTag + Stem(mskMap)
  {
    var path := ClippedPath(outputDir, srcMap, mskMap);
    ClippedPathName(outputDir, srcMap, mskMap);
    MarkersAreTags();
    StemWithoutExtension(srcMap);
    StemAndExtOf(path, Basename(path), Stem(srcMap), ClippedTag, Stem(mskMap), Ext(srcMap));
  }

  /**
   * The difference raster's path: under outputDir, named by map1's stem,
   * MinusTag, map2's stem and map1's extension.
   */
  function DiffPath(outputDir: string, mapPath1: string, mapPath2: string): string
  {
    Join(outputDir, Stem(mapPath1) + MinusTag + Stem(mapPath2) + Ext(mapPath1))
  }

  /**
   * The difference raster lies under outputDir; its base name is map1's stem,
   * MinusTag, map2's stem and map1's extension.
   */
  lemma DiffPathName(outputDir: string, mapPath1: string, mapPath2: string)
    ensures var path := DiffPath(outputDir, mapPath1, mapPath2);
            |outputDir| <= |path| && path[..|outputDir|] == outputDir
    ensures |outputDir| + |Stem(mapPath1) + MinusTag + Stem(mapPath2) + Ext(mapPath1)| <= |DiffPath(outputDir, mapPath1, mapPath2)| <= |outputDir| + 1 + |Stem(mapPath1) + MinusTag + Stem(mapPath2) + Ext(mapPath1)|
    ensures Basename(DiffPath(outputDir, mapPath1, mapPath2)) == Stem(mapPath1) + MinusTag + Stem(mapPath2) + Ext(mapPath1)
  {
    var name := Stem(mapPath1) + MinusTag + Stem(mapPath2) + Ext(mapPath1);
    MarkersAreTags();
    PlainName(Stem(mapPath1), MinusTag, Stem(mapPath2), Ext(mapPath1));
    JoinBasename(outputDir, name);
    JoinDirectlyBelow(outputDir, name);
  }

  /** The difference raster carries map1's extension, and both maps' stems in its own. */
  lemma DiffPathKeepsExtension(outputDir: string, mapPath1: string, mapPath2: string)
    requires Ext(mapPath1) != [] || ExtSep !in Stem(mapPath2)
    ensures Ext(DiffPath(outputDir, mapPath1, mapPath2)) == Ext(mapPath1)
    ensures Stem(DiffPath(outputDir, mapPath1, mapPath2)) == Stem(mapPath1) + MinusTag + Stem(mapPath2)
  {
    var path := DiffPath(outputDir, mapPath1, mapPath2);
    DiffPathName(outputDir, mapPath1, mapPath2);
    MarkersAreTags();
    StemWithoutExtension(mapPath1);
    StemAndExtOf(path, Basename(path), Stem(mapPath1), MinusTag, Stem(mapPath2), Ext(mapPath1));
  }

  /**
   * The difference path as line 166 is written: it names srcMapExt, which is
   * local to clipMap and unbound in main, so the lookup fails whatever the
   * inputs. That nothing after line 166 (the difference raster, its metadata,
   * the scatter image) is then written is a consequence stated in prose only.
   */
  function DiffPathAsWritten(): (r: Result<string>)
    ensures r.Failure? && r.error.UnboundName?
  {
    Failure(UnboundName("srcMapExt"))
  }

  /** The scatter image's path: under outputDir, map1's stem, VsTag, map2's stem, ScatterSuffix + PngExt. */
  function ScatterPath(outputDir: string, mapPath1: string, mapPath2: string): string
  {
    Join(outputDir, Stem(mapPath1) + VsTag + Stem(mapPath2) + ScatterSuffix + PngExt)
  }

  /**
   * The scatter image lies under outputDir; its base name is map1's stem,
   * VsTag, map2's stem and ScatterSuffix + PngExt.
   */
  lemma ScatterPathName(outputDir: string, mapPath1: string, mapPath2: string)
    ensures var path := ScatterPath(outputDir, mapPath1, mapPath2);
            |outputDir| <= |path| && path[..|outputDir|] == outputDir
    ensures |outputDir| + |Stem(mapPath1) + VsTag + Stem(mapPath2) + ScatterSuffix + PngExt| <= |ScatterPath(outputDir, mapPath1, mapPath2)| <= |outputDir| + 1 + |Stem(mapPath1) + VsTag + Stem(mapPath2) + ScatterSuffix + PngExt|
    ensures Basename(ScatterPath(outputDir, mapPath1, mapPath2)) == Stem(mapPath1) + VsTag + Stem(mapPath2) + ScatterSuffix + PngExt
  {
    var name := Stem(mapPath1) + VsTag + Stem(mapPath2) + ScatterSuffix + PngExt;
    MarkersAreTags();
    NotInConcat(Sep, ScatterSuffix, PngExt);
    PlainName(Stem(mapPath1), VsTag, Stem(mapPath2), ScatterSuffix + PngExt);
    JoinBasename(outputDir, name);
    JoinDirectlyBelow(outputDir, name);
  }

  /** The scatter image is always a .png whose stem carries both maps' stems. */
  lemma ScatterPathIsPng(outputDir: string, mapPath1: string, mapPath2: string)
    ensures Ext(ScatterPath(outputDir, mapPath1, mapPath2)) == PngExt
    ensures Stem(ScatterPath(outputDir, mapPath1, mapPath2)) == Stem(mapPath1) + VsTag + Stem(mapPath2) + ScatterSuffix
  {
    var path := ScatterPath(outputDir, mapPath1, mapPath2);
    MarkersAreTags();
    ScatterPathName(outputDir, mapPath1, mapPath2);
    SuffixedNameSplits(path, Stem(mapPath1), VsTag, Stem(mapPath2), ScatterSuffix, PngExt);
  }

  /** A base name stem1 + tag + stem2 + suffix + ext with a non-empty extension splits before ext. */
  lemma SuffixedNameSplits(path: string, stem1: string, tag: string, stem2: string, suffix: string, ext: string)
    requires Basename(path) == stem1 + tag + stem2 + suffix + ext
    requires Sep !in stem1 && IsTag(tag) && Sep !in stem2 && IsTag(suffix) && Sep !in ext
    requires |ext| > 0 && ext[0] == ExtSep && ExtSep !in ext[1..]
    ensures Stem(path) == stem1 + tag + stem2 + suffix && Ext(path) == ext
  {
    NotInConcat(Sep, stem2, suffix);
    assert stem1 + tag + (stem2 + suffix) == stem1 + tag + stem2 + suffix;
    StemAndExtOf(path, Basename(path), stem1, tag, stem2 + suffix, ext);
  }
}
